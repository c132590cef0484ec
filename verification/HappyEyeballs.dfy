/** The Happy Eyeballs dial loop (RFC 8305, sections 3, 5 and 8) and its dial goroutines: the loop, the
    lookups, the dials, the caller's cancellation and the clock interleave in any way. */
module HappyEyeballs {
  import opened Bytes
  import Counting

  // In milliseconds.
  const RESOLUTION_DELAY: nat := 50
  const ATTEMPT_DELAY: nat := 250

  datatype Ip = Ip(six: bool, bits: nat)

  datatype Lookup = Lookup(ips: seq<Ip>, err: bool)

  /** A dial goroutine: dialling, holding the result for the loop, or past its select. A dialer may
      return a connection, an error, both or neither. */
  datatype Stage = Dialing | Holding(conn: bool, err: bool) | Received(conn: bool, err: bool) | Dropped(conn: bool, err: bool)

  /** A dial that began at time at. */
  datatype Dial = Dial(ip: Ip, at: nat, stage: Stage)

  /** What readyToDialCh is. The attempt delay belongs to the last dial. */
  datatype Ready = Blocked | ResolutionDelay(due: nat) | AttemptDelay

  datatype Outcome = Running | Conn(dial: nat) | Cancelled | DialError | LookupError | NoIps

  datatype State = State(
    outcome: Outcome,
    cancelled: bool,
    opsPending: int,
    // resolutionCh != nil
    resolving: bool,
    ready: Ready,
    ip4s: seq<Ip>,
    ip6s: seq<Ip>,
    lastDialed: Option<Ip>,
    dials: seq<Dial>,
    dialErrs: nat,
    lookupErrs: nat,
    // the lookups still to come, and those received
    toCome: seq<Lookup>,
    seen: seq<Lookup>,
    // the clock, and when the first address came
    now: nat,
    knownAt: Option<nat>)

  function Init(lookups: seq<Lookup>): State {
    State(Running, false, 1, true, Blocked, [], [], None, [], 0, 0, lookups, [], 0, None)
  }

  /** The head of the loop sets readyToDialCh before the loop waits again. */
  function Head(s: State): State {
    s.(ready := if s.ip6s == [] && s.ip4s == [] then Blocked
                else if s.lastDialed.None? && s.ip6s == [] && s.resolving then
                  if s.ready == Blocked then ResolutionDelay(s.now + RESOLUTION_DELAY) else s.ready
                else AttemptDelay)
  }

  /** The dial goroutine is past its select, which ends the attempt delay. */
  predicate Finished(dial: Dial) {
    dial.stage.Received? || dial.stage.Dropped?
  }

  /** readyToDialCh is closed. The resolution delay ends with the context, the attempt delay does not. */
  predicate IsReady(s: State) {
    match s.ready
    case Blocked => false
    case ResolutionDelay(due) => s.now >= due || s.cancelled
    case AttemptDelay =>
      s.dials == [] || var last := s.dials[|s.dials| - 1]; s.now >= last.at + ATTEMPT_DELAY || Finished(last)
  }

  function OnlySix(ips: seq<Ip>, six: bool): seq<Ip> {
    if ips == [] then []
    else (if ips[0].six == six then [ips[0]] else []) + OnlySix(ips[1..], six)
  }

  /** What a lookup result changes. */
  function Gather(s: State): State
    requires s.toCome != []
  {
    var res := s.toCome[0];
    var took := s.(toCome := s.toCome[1..], seen := s.seen + [res]);
    if res.err then took.(lookupErrs := s.lookupErrs + 1)
    else took.(opsPending := s.opsPending + |res.ips|,
               ip6s := s.ip6s + OnlySix(res.ips, true),
               ip4s := s.ip4s + OnlySix(res.ips, false),
               knownAt := if s.knownAt.None? && res.ips != [] then Some(s.now) else s.knownAt)
  }

  /** What a lookup result or the end of the lookups changes. */
  function Looked(s: State): State {
    if s.toCome == [] then s.(opsPending := s.opsPending - 1, resolving := false) else Gather(s)
  }

  /** The end of the lookups, or a result. */
  ghost predicate LookupStep(s: State, s': State) {
    && s.outcome == Running && s.opsPending > 0 && s.resolving
    && s' == Head(Looked(s))
  }

  /** Alternate between IPv6 and IPv4: whether the next address is an IPv4 one. */
  predicate FourNext(s: State) {
    s.ip6s == [] || (s.lastDialed.Some? && s.lastDialed.value.six && s.ip4s != [])
  }

  /** Dial the next address. */
  function DialNext(s: State): State
    requires s.ip4s != [] || s.ip6s != []
  {
    var toDial := if FourNext(s) then s.ip4s[0] else s.ip6s[0];
    var rest := if FourNext(s) then s.(ip4s := s.ip4s[1..]) else s.(ip6s := s.ip6s[1..]);
    rest.(dials := s.dials + [Dial(toDial, s.now, Dialing)], lastDialed := Some(toDial))
  }

  /** The wait is over: dial. */
  ghost predicate DialStep(s: State, s': State) {
    && s.outcome == Running && s.opsPending > 0 && IsReady(s)
    && (s.ip4s != [] || s.ip6s != [])
    && s' == Head(DialNext(s))
  }

  /** The loop takes the result of dial d. */
  ghost predicate ReceiveStep(s: State, d: nat, s': State) {
    && s.outcome == Running && s.opsPending > 0
    && d < |s.dials| && s.dials[d].stage.Holding?
    && var Holding(conn, err) := s.dials[d].stage;
       var took := s.(opsPending := s.opsPending - 1, dials := s.dials[d := s.dials[d].(stage := Received(conn, err))]);
       s' == if err then Head(took.(dialErrs := s.dialErrs + 1)) else took.(outcome := Conn(d), cancelled := true)
  }

  /** The context is done. */
  ghost predicate CancelStep(s: State, s': State) {
    && s.outcome == Running && s.opsPending > 0 && s.cancelled
    && s' == s.(outcome := Cancelled)
  }

  /** Nothing is pending: give up, and prefer the dial errors. */
  ghost predicate GiveUpStep(s: State, s': State) {
    && s.outcome == Running && s.opsPending <= 0
    && s' == s.(cancelled := true,
                outcome := if s.dialErrs > 0 then DialError else if s.lookupErrs > 0 then LookupError else NoIps)
  }

  /** The dialer returns. */
  ghost predicate DialReturns(s: State, d: nat, s': State) {
    && d < |s.dials| && s.dials[d].stage == Dialing
    && exists conn, err :: s' == s.(dials := s.dials[d := s.dials[d].(stage := Holding(conn, err))])
  }

  /** The goroutine finds the dialling over, and closes the connection it has, if any. */
  ghost predicate DropStep(s: State, d: nat, s': State) {
    && d < |s.dials| && s.dials[d].stage.Holding? && s.cancelled
    && s' == s.(dials := s.dials[d := s.dials[d].(stage := Dropped(s.dials[d].stage.conn, s.dials[d].stage.err))])
  }

  /** The caller cancels. */
  ghost predicate CallerCancels(s: State, s': State) {
    !s.cancelled && s' == s.(cancelled := true)
  }

  ghost predicate LoopStep(s: State, d: nat, s': State) {
    LookupStep(s, s') || DialStep(s, s') || ReceiveStep(s, d, s') || CancelStep(s, s') || GiveUpStep(s, s')
  }

  ghost predicate Step(s: State, d: nat, s': State) {
    LoopStep(s, d, s') || DialReturns(s, d, s') || DropStep(s, d, s') || CallerCancels(s, s')
  }

  ghost predicate Tick(s: State, s': State) {
    s' == s.(now := s.now + 1)
  }

  ghost predicate Next(s: State, s': State) {
    Tick(s, s') || exists d: nat :: Step(s, d, s')
  }

  ghost predicate Run(lookups: seq<Lookup>, run: seq<State>) {
    |run| > 0 && run[0] == Init(lookups) && forall i :: 0 <= i < |run| - 1 ==> Next(run[i], run[i + 1])
  }

  // What the loop keeps.

  /** The addresses of the lookups without an error, in order. */
  function Gathered(lookups: seq<Lookup>): seq<Ip> {
    if lookups == [] then []
    else
      var last := lookups[|lookups| - 1];
      Gathered(lookups[..|lookups| - 1]) + if last.err then [] else last.ips
  }

  function Errors(lookups: seq<Lookup>): nat {
    if lookups == [] then 0
    else Errors(lookups[..|lookups| - 1]) + if lookups[|lookups| - 1].err then 1 else 0
  }

  function Dialled(dials: seq<Dial>): (r: seq<Ip>)
    ensures |r| == |dials|
  {
    seq(|dials|, i requires 0 <= i < |dials| => dials[i].ip)
  }

  datatype Measure = Unreceived | StepsLeft

  function Weight(m: Measure): Dial -> nat {
    match m
    case Unreceived => (dial: Dial) => B(!dial.stage.Received?)
    case StepsLeft => (dial: Dial) => if dial.stage.Dialing? then 2 else if dial.stage.Holding? then 1 else 0
  }

  function Total(m: Measure, dials: seq<Dial>): nat {
    Counting.Total(Weight(m), dials)
  }

  lemma {:induction false} OnlySixAppend(a: seq<Ip>, b: seq<Ip>, six: bool)
    ensures OnlySix(a + b, six) == OnlySix(a, six) + OnlySix(b, six)
  {
    if a == [] {
      assert a + b == b;
    } else {
      assert (a + b)[1..] == a[1..] + b;
      OnlySixAppend(a[1..], b, six);
    }
  }

  lemma {:induction false} FamiliesAddUp(ips: seq<Ip>)
    ensures |OnlySix(ips, true)| + |OnlySix(ips, false)| == |ips|
    ensures forall i :: 0 <= i < |OnlySix(ips, true)| ==> OnlySix(ips, true)[i].six
    ensures forall i :: 0 <= i < |OnlySix(ips, false)| ==> !OnlySix(ips, false)[i].six
  {
    if ips == [] {
    } else {
      FamiliesAddUp(ips[1..]);
    }
  }

  /** Everything pending is counted once. */
  ghost predicate Pending(s: State) {
    && s.opsPending == B(s.resolving) + |s.ip4s| + |s.ip6s| + Total(Unreceived, s.dials)
    && s.dialErrs + B(s.outcome.Conn?) + Total(Unreceived, s.dials) == |s.dials|
  }

  /** Every address of an error-free lookup is dialled or waiting, in order within its family. */
  ghost predicate Ledger(lookups: seq<Lookup>, s: State) {
    && s.seen + s.toCome == lookups && (!s.resolving ==> s.toCome == [])
    && OnlySix(Gathered(s.seen), true) == OnlySix(Dialled(s.dials), true) + s.ip6s
    && OnlySix(Gathered(s.seen), false) == OnlySix(Dialled(s.dials), false) + s.ip4s
    && s.lookupErrs == Errors(s.seen)
    && (forall i :: 0 <= i < |s.ip6s| ==> s.ip6s[i].six) && (forall i :: 0 <= i < |s.ip4s| ==> !s.ip4s[i].six)
  }

  /** A received result without an error is what the loop returned, and goroutines drop their results
      only when the dialling is over. */
  ghost predicate Results(s: State) {
    && (forall d :: 0 <= d < |s.dials| && s.dials[d].stage.Received? && !s.dials[d].stage.err ==> s.outcome == Conn(d))
    && (s.outcome.Conn? ==> s.outcome.dial < |s.dials| && s.dials[s.outcome.dial].stage.Received?
                            && !s.dials[s.outcome.dial].stage.err)
    && (forall d :: 0 <= d < |s.dials| && s.dials[d].stage.Dropped? ==> s.cancelled)
    && (s.outcome != Running ==> s.cancelled) && (s.outcome == Cancelled ==> s.opsPending > 0)
  }

  /** What readyToDialCh is, told without it: the resolution delay counts from the first address. */
  ghost predicate Timed(s: State) {
    && (s.lastDialed.None? <==> s.dials == [])
    && (s.knownAt.None? <==> s.dials == [] && s.ip4s == [] && s.ip6s == [])
    && s.ready == (if s.ip6s == [] && s.ip4s == [] then Blocked
                   else if s.dials == [] && s.ip6s == [] && s.resolving then
                     ResolutionDelay(s.knownAt.value + RESOLUTION_DELAY)
                   else AttemptDelay)
    && (s.knownAt.Some? ==> s.knownAt.value <= s.now)
    && (s.dials != [] ==> s.dials[|s.dials| - 1].at <= s.now)
  }

  ghost predicate Sound(s: State) {
    Pending(s) && Results(s) && Timed(s)
  }

  ghost predicate Inv(lookups: seq<Lookup>, s: State) {
    Ledger(lookups, s) && Sound(s)
  }

  /** Gathering a lookup adds its addresses behind those of each family. */
  lemma GatherMore(seen: seq<Lookup>, res: Lookup, six: bool, dialled: seq<Ip>, waiting: seq<Ip>)
    requires OnlySix(Gathered(seen), six) == dialled + waiting
    ensures OnlySix(Gathered(seen + [res]), six) == dialled + (waiting + if res.err then [] else OnlySix(res.ips, six))
    ensures Errors(seen + [res]) == Errors(seen) + B(res.err)
  {
    assert (seen + [res])[..|seen|] == seen;
    var more := if res.err then [] else res.ips;
    OnlySixAppend(Gathered(seen), more, six);
    assert (dialled + waiting) + OnlySix(more, six) == dialled + (waiting + OnlySix(more, six));
  }

  lemma GatherKeepsLedger(lookups: seq<Lookup>, s: State)
    requires s.toCome != [] && s.resolving && Ledger(lookups, s)
    ensures Ledger(lookups, Gather(s))
  {
    var res := s.toCome[0];
    assert s.seen + s.toCome == s.seen + [res] + s.toCome[1..];
    GatherMore(s.seen, res, true, OnlySix(Dialled(s.dials), true), s.ip6s);
    GatherMore(s.seen, res, false, OnlySix(Dialled(s.dials), false), s.ip4s);
    if res.err {
      assert s.ip6s + [] == s.ip6s && s.ip4s + [] == s.ip4s;
    } else {
      FamiliesAddUp(res.ips);
    }
  }

  lemma LookedKeepsLedger(lookups: seq<Lookup>, s: State)
    requires s.resolving && Ledger(lookups, s)
    ensures Ledger(lookups, Looked(s))
  {
    if s.toCome != [] {
      GatherKeepsLedger(lookups, s);
    }
  }

  lemma LookedKeepsPending(s: State)
    requires s.resolving && Pending(s)
    ensures Pending(Looked(s))
  {
    if s.toCome != [] {
      FamiliesAddUp(s.toCome[0].ips);
    }
  }

  lemma LookedIsTimed(s: State)
    requires s.resolving && Timed(s)
    ensures Timed(Head(Looked(s)))
  {
    if s.toCome != [] {
      FamiliesAddUp(s.toCome[0].ips);
    }
  }

  lemma HeadKeepsLedger(lookups: seq<Lookup>, s: State)
    requires Ledger(lookups, s)
    ensures Ledger(lookups, Head(s))
  {
  }

  lemma LookupKeepsLedger(lookups: seq<Lookup>, s: State, s': State)
    requires LookupStep(s, s') && Ledger(lookups, s)
    ensures Ledger(lookups, s')
  {
    LookedKeepsLedger(lookups, s);
    HeadKeepsLedger(lookups, Looked(s));
  }

  lemma LookupKeepsSound(s: State, s': State)
    requires LookupStep(s, s') && Sound(s)
    ensures Sound(s')
  {
    assert Pending(s') by { LookedKeepsPending(s); }
    assert Timed(s') by { LookedIsTimed(s); }
    assert s'.dials == s.dials && s'.outcome == s.outcome && s'.cancelled == s.cancelled;
  }

  /** Dialling the first waiting address of a family moves it over, and leaves the other family. */
  lemma DialOne(all: seq<Ip>, dialled: seq<Ip>, waiting: seq<Ip>, six: bool)
    requires waiting != [] && waiting[0].six == six && all == OnlySix(dialled, six) + waiting
    ensures all == OnlySix(dialled + [waiting[0]], six) + waiting[1..]
    ensures OnlySix(dialled + [waiting[0]], !six) == OnlySix(dialled, !six)
  {
    OnlySixAppend(dialled, [waiting[0]], six);
    OnlySixAppend(dialled, [waiting[0]], !six);
    assert waiting == [waiting[0]] + waiting[1..];
    assert [waiting[0]][1..] == [];
  }

  lemma DialKeepsLedger(lookups: seq<Lookup>, s: State, s': State)
    requires DialStep(s, s') && Ledger(lookups, s)
    ensures Ledger(lookups, s')
  {
    var toDial := if FourNext(s) then s.ip4s[0] else s.ip6s[0];
    assert Dialled(s'.dials) == Dialled(s.dials) + [toDial];
    if FourNext(s) {
      DialOne(OnlySix(Gathered(s.seen), false), Dialled(s.dials), s.ip4s, false);
    } else {
      DialOne(OnlySix(Gathered(s.seen), true), Dialled(s.dials), s.ip6s, true);
    }
  }

  lemma DialKeepsSound(s: State, s': State)
    requires DialStep(s, s') && Sound(s)
    ensures Sound(s')
  {
    Counting.Start(Weight(Unreceived), s.dials, s'.dials[|s.dials|]);
  }

  /** The other steps at most move one dial on. */
  lemma MoveKeepsLedger(lookups: seq<Lookup>, s: State, d: nat, s': State)
    requires Ledger(lookups, s)
    requires s.seen == s'.seen && s.toCome == s'.toCome && s.resolving == s'.resolving && s.lookupErrs == s'.lookupErrs
    requires s.ip4s == s'.ip4s && s.ip6s == s'.ip6s
    requires s'.dials == s.dials || (d < |s.dials| == |s'.dials| && s'.dials == s.dials[d := s.dials[d].(stage := s'.dials[d].stage)])
    ensures Ledger(lookups, s')
  {
    assert Dialled(s.dials) == Dialled(s'.dials);
  }

  lemma ReceiveKeepsSound(s: State, d: nat, s': State)
    requires ReceiveStep(s, d, s') && Sound(s)
    ensures Sound(s')
  {
    assert Results(s') && Timed(s');
    Counting.Move(Weight(Unreceived), s.dials, d, s'.dials[d]);
  }

  lemma GoroutineKeepsSound(s: State, d: nat, s': State)
    requires (DialReturns(s, d, s') || DropStep(s, d, s')) && Sound(s)
    ensures Sound(s')
  {
    Counting.Move(Weight(Unreceived), s.dials, d, s'.dials[d]);
  }

  lemma EndKeepsSound(s: State, s': State)
    requires (CancelStep(s, s') || GiveUpStep(s, s') || CallerCancels(s, s')) && Sound(s)
    ensures Sound(s')
  {
  }

  lemma StepKeepsLedger(lookups: seq<Lookup>, s: State, d: nat, s': State)
    requires Step(s, d, s') && Ledger(lookups, s)
    ensures Ledger(lookups, s')
  {
    if LookupStep(s, s') {
      LookupKeepsLedger(lookups, s, s');
    } else if DialStep(s, s') {
      DialKeepsLedger(lookups, s, s');
    } else {
      MoveKeepsLedger(lookups, s, d, s');
    }
  }

  lemma StepKeepsSound(s: State, d: nat, s': State)
    requires Step(s, d, s') && Sound(s)
    ensures Sound(s')
  {
    if LookupStep(s, s') {
      LookupKeepsSound(s, s');
    } else if DialStep(s, s') {
      DialKeepsSound(s, s');
    } else if ReceiveStep(s, d, s') {
      ReceiveKeepsSound(s, d, s');
    } else if DialReturns(s, d, s') || DropStep(s, d, s') {
      GoroutineKeepsSound(s, d, s');
    } else {
      EndKeepsSound(s, s');
    }
  }

  lemma StepKeepsInv(lookups: seq<Lookup>, s: State, d: nat, s': State)
    requires Step(s, d, s') && Inv(lookups, s)
    ensures Inv(lookups, s')
  {
    StepKeepsLedger(lookups, s, d, s');
    StepKeepsSound(s, d, s');
  }

  lemma NextKeepsInv(lookups: seq<Lookup>, s: State, s': State)
    requires Next(s, s') && Inv(lookups, s)
    ensures Inv(lookups, s')
  {
    if !Tick(s, s') {
      var d: nat :| Step(s, d, s');
      StepKeepsInv(lookups, s, d, s');
    }
  }

  lemma {:induction false} RunKeepsInv(lookups: seq<Lookup>, run: seq<State>)
    requires Run(lookups, run)
    ensures Inv(lookups, run[|run| - 1])
  {
    if |run| == 1 {
      assert lookups == [] + lookups;
    } else {
      var before := run[..|run| - 1];
      assert Run(lookups, before) by {
        forall i | 0 <= i < |before| - 1
          ensures Next(before[i], before[i + 1])
        {
          assert Next(run[i], run[i + 1]);
        }
      }
      RunKeepsInv(lookups, before);
      NextKeepsInv(lookups, run[|run| - 2], run[|run| - 1]);
    }
  }

  // Over every run.

  /** At every loop head opsPending is exact, so the loop only waits while something is pending, and it
      dials only when there is an address: its index is never out of range. */
  lemma PendingIsExact(lookups: seq<Lookup>, run: seq<State>)
    requires Run(lookups, run)
    ensures var s := run[|run| - 1];
            && s.opsPending == B(s.resolving) + |s.ip4s| + |s.ip6s| + Total(Unreceived, s.dials)
            && (s.opsPending == 0 <==> !s.resolving && s.ip4s == [] && s.ip6s == []
                                       && forall d :: 0 <= d < |s.dials| ==> s.dials[d].stage.Received?)
  {
    RunKeepsInv(lookups, run);
    var s := run[|run| - 1];
    if s.opsPending == 0 {
      Counting.Zero(Weight(Unreceived), s.dials);
    } else if Total(Unreceived, s.dials) > 0 {
      var d := Counting.Some(Weight(Unreceived), s.dials);
    }
  }

  lemma NoAddresses(ips: seq<Ip>)
    requires OnlySix(ips, true) == OnlySix(ips, false) == []
    ensures ips == []
  {
    FamiliesAddUp(ips);
  }

  /** The loop gives up only when every lookup is in, and every address of the error-free ones was
      dialled, in order within its family, and failed. It reports a dial error exactly when there was
      an address, a lookup error when there was none and a lookup failed, and no IPs otherwise. */
  lemma GivingUpMeansAllFailed(lookups: seq<Lookup>, run: seq<State>, s': State)
    requires Run(lookups, run) && GiveUpStep(run[|run| - 1], s')
    ensures OnlySix(Dialled(s'.dials), true) == OnlySix(Gathered(lookups), true)
    ensures OnlySix(Dialled(s'.dials), false) == OnlySix(Gathered(lookups), false)
    ensures forall d :: 0 <= d < |s'.dials| ==> s'.dials[d].stage.Received? && s'.dials[d].stage.err
    ensures s'.outcome == if Gathered(lookups) != [] then DialError
                          else if Errors(lookups) > 0 then LookupError else NoIps
  {
    PendingIsExact(lookups, run);
    RunKeepsInv(lookups, run);
    var s := run[|run| - 1];
    assert s.seen + [] == s.seen;
    assert OnlySix(Dialled(s.dials), true) + [] == OnlySix(Dialled(s.dials), true);
    assert OnlySix(Dialled(s.dials), false) + [] == OnlySix(Dialled(s.dials), false);
    assert Total(Unreceived, s.dials) == 0;
    if s.dials == [] {
      NoAddresses(Gathered(lookups));
    } else {
      FamiliesAddUp(Dialled(s.dials));
      FamiliesAddUp(Gathered(lookups));
    }
  }

  datatype Place = Nowhere | Held | Returned | Closed | Lost

  /** Where the connection of dial d is. */
  function PlaceOf(s: State, d: nat): Place
    requires d < |s.dials|
  {
    var stage := s.dials[d].stage;
    if stage.Dialing? || !stage.conn then Nowhere
    else if s.outcome == Conn(d) then Returned
    else if stage.Holding? then Held
    else if stage.Dropped? then Closed
    else Lost
  }

  /** At most one connection is returned: that of a result without an error which the loop took. A
      connection that its goroutine closed was not wanted any more. One is neither held, returned nor
      closed exactly if the dialer returned an error with it and the loop took the result. */
  lemma EveryConnectionHasOnePlace(lookups: seq<Lookup>, run: seq<State>, d: nat)
    requires Run(lookups, run) && d < |run[|run| - 1].dials|
    ensures var s := run[|run| - 1];
            && (PlaceOf(s, d) == Returned <==> s.dials[d].stage == Received(true, false))
            && (PlaceOf(s, d) == Closed ==> s.cancelled)
            && (PlaceOf(s, d) == Lost <==> s.dials[d].stage == Received(true, true))
  {
    RunKeepsInv(lookups, run);
  }

  /** Once the loop is over and the goroutines are too, every connection was returned or closed, except
      exactly those that a dialer returned with an error and the loop took. */
  lemma OthersAreClosed(lookups: seq<Lookup>, run: seq<State>, d: nat)
    requires Run(lookups, run) && d < |run[|run| - 1].dials|
    requires var s := run[|run| - 1];
             s.outcome != Running && (s.dials[d].stage.Received? || s.dials[d].stage.Dropped?) && s.dials[d].stage.conn
    ensures var s := run[|run| - 1]; var stage := s.dials[d].stage;
            && (PlaceOf(s, d) == Returned || PlaceOf(s, d) == Closed <==> !(stage.Received? && stage.err))
            && (PlaceOf(s, d) == Returned <==> s.outcome == Conn(d))
  {
    RunKeepsInv(lookups, run);
  }

  /** No goroutine is stuck with a result that nobody takes any more: once the loop is over it can go, and
      has then closed its connection, if it has one. */
  lemma HoldersCanGo(lookups: seq<Lookup>, run: seq<State>, d: nat) returns (s': State)
    requires Run(lookups, run) && d < |run[|run| - 1].dials|
    requires run[|run| - 1].outcome != Running && run[|run| - 1].dials[d].stage.Holding?
    ensures DropStep(run[|run| - 1], d, s')
    ensures PlaceOf(s', d) == if run[|run| - 1].dials[d].stage.conn then Closed else Nowhere
  {
    RunKeepsInv(lookups, run);
    var s := run[|run| - 1];
    s' := s.(dials := s.dials[d := s.dials[d].(stage := Dropped(s.dials[d].stage.conn, s.dials[d].stage.err))]);
  }

  /** Once the lookups are over, the loop dials the one address ip, whose dialer returns a connection, and
      takes it. */
  lemma TakesOne(s: State, ip: Ip, err: bool) returns (run: seq<State>)
    requires s.outcome == Running && s.opsPending == 1 && s.ready == AttemptDelay && s.lastDialed.None?
    requires !s.resolving && s.dials == []
    requires s.ip6s == (if ip.six then [ip] else []) && s.ip4s == if ip.six then [] else [ip]
    ensures |run| == 4 && run[0] == s && forall i :: 0 <= i < 3 ==> Next(run[i], run[i + 1])
    ensures |run[3].dials| == 1 && run[3].dials[0].ip == ip && run[3].dials[0].stage == Received(true, err)
    ensures run[3].outcome == if err then Running else Conn(0)
  {
    assert [ip][1..] == [];
    var c := s.(ready := Blocked, ip6s := [], ip4s := [], dials := [Dial(ip, s.now, Dialing)], lastDialed := Some(ip));
    assert Step(s, 0, c) by { assert DialStep(s, c); }
    var d := c.(dials := [Dial(ip, s.now, Holding(true, err))]);
    assert Step(c, 0, d) by { assert DialReturns(c, 0, d); }
    var took := d.(opsPending := 0, dials := [Dial(ip, s.now, Received(true, err))]);
    var e := if err then took.(dialErrs := d.dialErrs + 1) else took.(outcome := Conn(0), cancelled := true);
    assert Step(d, 0, e) by { assert ReceiveStep(d, 0, e); }
    run := [s, c, d, e];
  }

  lemma OneAddress(ip: Ip)
    ensures OnlySix([ip], ip.six) == [ip] && OnlySix([ip], !ip.six) == []
  {
    assert [ip][1..] == [];
  }

  /** A lookup of one address, and then the loop takes what its dialer returns. */
  lemma OneDial(ip: Ip, err: bool) returns (run: seq<State>)
    ensures Run([Lookup([ip], false)], run) && |run[|run| - 1].dials| == 1
    ensures run[|run| - 1].dials[0].ip == ip && run[|run| - 1].dials[0].stage == Received(true, err)
    ensures run[|run| - 1].outcome == if err then Running else Conn(0)
  {
    var lookup := Lookup([ip], false);
    var a := Init([lookup]);
    assert [ip][1..] == [] && [lookup][1..] == [] && [] + [lookup] == [lookup];
    OneAddress(ip);
    var b := Head(Gather(a));
    assert Step(a, 0, b) by { assert LookupStep(a, b); }
    var c := Head(b.(opsPending := 1, resolving := false));
    assert Step(b, 0, c) by { assert LookupStep(b, c); }
    var rest := TakesOne(c, ip, err);
    run := [a, b] + rest;
  }

  /** A dialer that returns a connection with an error makes the loop lose it. */
  lemma ConnectionWithErrorIsLost(ip: Ip)
    ensures exists run: seq<State> ::
      Run([Lookup([ip], false)], run) && |run[|run| - 1].dials| == 1 && PlaceOf(run[|run| - 1], 0) == Lost
  {
    var run := OneDial(ip, true);
  }

  /** A dialer that returns one without an error makes the loop return it. */
  lemma ConnectionIsReturned(ip: Ip)
    ensures exists run: seq<State> ::
      Run([Lookup([ip], false)], run) && |run[|run| - 1].dials| == 1 && PlaceOf(run[|run| - 1], 0) == Returned
  {
    var run := OneDial(ip, false);
  }

  /** The families alternate while both have addresses; IPv6 goes first if it has one. */
  lemma FamiliesAlternate(lookups: seq<Lookup>, run: seq<State>, s': State)
    requires Run(lookups, run) && DialStep(run[|run| - 1], s')
    ensures var s := run[|run| - 1]; var next := s'.dials[|s.dials|].ip;
            && s'.dials == s.dials + [Dial(next, s.now, Dialing)] && s'.lastDialed == Some(next)
            && (s.ip4s != [] && s.ip6s != [] ==> next.six == (s.lastDialed.None? || !s.lastDialed.value.six))
            && (s.ip6s == [] ==> !next.six) && (s.ip4s == [] ==> next.six)
  {
    RunKeepsInv(lookups, run);
  }

  ghost predicate CancelledIn(run: seq<State>) {
    exists k :: 0 <= k < |run| - 1 && CallerCancels(run[k], run[k + 1])
  }

  /** While the loop runs, and when it ends as cancelled, the dialling is cancelled only if the caller
      cancelled it; and it ends so only while something is pending. */
  lemma {:induction false} CancelledByTheCaller(lookups: seq<Lookup>, run: seq<State>)
    requires Run(lookups, run)
    requires var s := run[|run| - 1]; s.outcome == Cancelled || (s.outcome == Running && s.cancelled)
    ensures CancelledIn(run) && (run[|run| - 1].outcome == Cancelled ==> run[|run| - 1].opsPending > 0)
  {
    assert run[|run| - 1].outcome == Cancelled ==> run[|run| - 1].opsPending > 0 by {
      RunKeepsInv(lookups, run);
    }
    if |run| == 1 {
    } else {
      var before, s, s' := run[..|run| - 1], run[|run| - 2], run[|run| - 1];
      assert Run(lookups, before) by {
        forall i | 0 <= i < |before| - 1
          ensures Next(before[i], before[i + 1])
        {
          assert Next(run[i], run[i + 1]);
        }
      }
      assert Next(s, run[|run| - 2 + 1]);
      if CallerCancels(s, s') {
        assert CallerCancels(run[|run| - 2], run[|run| - 2 + 1]);
      } else {
        CancelledByTheCaller(lookups, before);
        var k :| 0 <= k < |before| - 1 && CallerCancels(before[k], before[k + 1]);
        assert CallerCancels(run[k], run[k + 1]);
      }
    }
  }

  /** When the next waiting address is due, in terms of the clock. */
  ghost predicate Due(s: State)
    requires s.dials == [] ==> s.knownAt.Some?
  {
    if s.dials == [] then
      s.ip6s != [] || !s.resolving || s.cancelled || s.now >= s.knownAt.value + 50
    else
      var last := s.dials[|s.dials| - 1];
      last.stage.Received? || last.stage.Dropped? || s.now >= last.at + 250
  }

  /** While an address waits, the loop can dial exactly when it is due: the first address at once,
      unless it is an IPv4 one and lookups are open, and each other one when the dial before it is over
      or 250 ms old. */
  lemma DialsExactlyWhenDue(lookups: seq<Lookup>, run: seq<State>)
    requires Run(lookups, run) && run[|run| - 1].outcome == Running
    requires run[|run| - 1].ip4s != [] || run[|run| - 1].ip6s != []
    ensures var s := run[|run| - 1];
            && (s.dials == [] ==> s.knownAt.Some?)
            && (DialStep(s, Head(DialNext(s))) <==> Due(s))
  {
    RunKeepsInv(lookups, run);
  }

  /** While lookups are open and no IPv6 address is known, the first IPv4 address is dialled only when
      50 ms have passed since the first address came, or when the dialling was cancelled. */
  lemma FirstIpv4WaitsForIpv6(lookups: seq<Lookup>, run: seq<State>, s': State)
    requires Run(lookups, run) && DialStep(run[|run| - 1], s')
    ensures var s := run[|run| - 1];
            s.dials == [] && s.resolving && !s'.dials[0].ip.six ==>
              s.cancelled || (s.knownAt.Some? && s.now >= s.knownAt.value + 50)
  {
    RunKeepsInv(lookups, run);
  }

  /** Each dial after the first begins 250 ms after the dial before it, or when that one is over. */
  lemma AttemptsAreSpaced(lookups: seq<Lookup>, run: seq<State>, s': State)
    requires Run(lookups, run) && DialStep(run[|run| - 1], s')
    ensures var n := |s'.dials|;
            && n == |run[|run| - 1].dials| + 1
            && (n > 1 ==> var last := s'.dials[n - 2];
                          s'.dials[n - 1].at >= last.at + 250 || last.stage.Received? || last.stage.Dropped?)
  {
    RunKeepsInv(lookups, run);
  }

  // The loop comes to an end.

  function Cost(lookups: seq<Lookup>): nat {
    if lookups == [] then 0 else 1 + 3 * |lookups[0].ips| + Cost(lookups[1..])
  }

  /** How much is left to do. */
  function Work(s: State): nat {
    Cost(s.toCome) + B(s.resolving) + 3 * (|s.ip4s| + |s.ip6s|) + Total(StepsLeft, s.dials)
    + B(!s.cancelled) + B(s.outcome == Running)
  }

  /** Every step but the clock's leaves less to do, whether it is the loop's, a dial goroutine's or the
      caller's. */
  lemma EveryStepIsProgress(s: State, d: nat, s': State)
    requires Step(s, d, s')
    ensures Work(s') < Work(s)
  {
    if LookupStep(s, s') {
      if s.toCome != [] {
        FamiliesAddUp(s.toCome[0].ips);
      }
    } else if DialStep(s, s') {
      Counting.Start(Weight(StepsLeft), s.dials, s'.dials[|s.dials|]);
    } else if ReceiveStep(s, d, s') || DialReturns(s, d, s') || DropStep(s, d, s') {
      GoroutineIsProgress(s, d, s');
    }
  }

  lemma GoroutineIsProgress(s: State, d: nat, s': State)
    requires ReceiveStep(s, d, s') || DialReturns(s, d, s') || DropStep(s, d, s')
    ensures Work(s') < Work(s)
  {
    Counting.Move(Weight(StepsLeft), s.dials, d, s'.dials[d]);
  }

  ghost predicate LoopCanMove(s: State) {
    exists d: nat, s' :: LoopStep(s, d, s')
  }

  /** Within the attempt delay, the loop of itself can take a step, unless all it waits for is a dialer
      that has not returned, and it was not cancelled: it never waits for a caller's cancellation. */
  lemma TheLoopNeverHangs(lookups: seq<Lookup>, run: seq<State>)
    requires Run(lookups, run) && run[|run| - 1].outcome == Running
    ensures var s := run[|run| - 1];
            || (exists later: nat | s.now <= later <= s.now + 250 :: LoopCanMove(s.(now := later)))
            || (!s.cancelled && !s.resolving && s.ip4s == [] && s.ip6s == []
                && exists d :: 0 <= d < |s.dials| && s.dials[d].stage == Dialing)
  {
    var s := run[|run| - 1];
    assert Sound(s) by {
      RunKeepsInv(lookups, run);
    }
    if s.opsPending > 0 && !s.cancelled && s.ip4s == [] && s.ip6s == [] && !s.resolving {
      HeldOrDialing(s);
    } else {
      var late := s.(now := s.now + ATTEMPT_DELAY);
      var s' := SomeStep(late);
      assert LoopCanMove(late);
    }
  }

  /** With a result outstanding and no address to dial. */
  lemma HeldOrDialing(s: State)
    requires s.outcome == Running && s.opsPending > 0 && !s.cancelled && Results(s) && Total(Unreceived, s.dials) > 0
    ensures LoopCanMove(s.(now := s.now)) || exists d :: 0 <= d < |s.dials| && s.dials[d].stage == Dialing
  {
    var d := Counting.Some(Weight(Unreceived), s.dials);
    if !s.dials[d].stage.Dialing? {
      var Holding(conn, err) := s.dials[d].stage;
      var took := s.(opsPending := s.opsPending - 1, dials := s.dials[d := s.dials[d].(stage := Received(conn, err))]);
      var s' := if err then Head(took.(dialErrs := s.dialErrs + 1)) else took.(outcome := Conn(d), cancelled := true);
      assert ReceiveStep(s, d, s');
      assert LoopStep(s, d, s');
    }
  }

  lemma SomeStep(s: State) returns (s': State)
    requires s.outcome == Running && Pending(s) && Timed(s)
    requires s.opsPending > 0 && !s.cancelled && s.ip4s == [] && s.ip6s == [] ==> s.resolving
    requires s.dials != [] ==> s.now >= s.dials[|s.dials| - 1].at + ATTEMPT_DELAY
    requires s.knownAt.Some? ==> s.now >= s.knownAt.value + RESOLUTION_DELAY
    ensures LoopStep(s, 0, s')
  {
    if s.opsPending <= 0 {
      s' := s.(cancelled := true,
               outcome := if s.dialErrs > 0 then DialError else if s.lookupErrs > 0 then LookupError else NoIps);
      assert GiveUpStep(s, s');
    } else if s.cancelled {
      s' := s.(outcome := Cancelled);
      assert CancelStep(s, s');
    } else if s.ip4s != [] || s.ip6s != [] {
      s' := Head(DialNext(s));
      assert DialStep(s, s');
    } else {
      s' := Head(Looked(s));
      assert LookupStep(s, s');
    }
  }
}
