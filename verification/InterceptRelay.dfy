/** The DNS-intercepting packet relay: one parent association shared by any number of goroutines.
    Every region run under the mutex, every select case and every call into another relay is one
    step; a run is any interleaving of the steps of any number of calls. */
module InterceptRelay {
  import opened Bytes
  import Counting

  datatype Ip = V4(bits: nat) | Mapped(bits: nat) | V6(bits: nat)

  datatype Addr = Addr(ip: Ip, port: nat)

  function Unmap(ip: Ip): Ip {
    if ip.Mapped? then V4(ip.bits) else ip
  }

  /** `isSameAddrPort`. */
  predicate SameAddrPort(a: Addr, b: Addr) {
    Unmap(a.ip) == Unmap(b.ip) && a.port == b.port
  }

  datatype Relay = Relay(dnsLocalResolver: Addr, dnsRemoteResolver: Addr)

  type Packet = seq<byte>

  datatype Outcome = Ok | ErrClosed | Failed

  /** Where a goroutine stands. A number is the sub-association it works on. */
  datatype Pc =
    // SendPacket to the intercepted resolver, and the goroutine it starts
    | QueryStart(packet: Packet)
    | QueryCreating(packet: Packet)
    | QueryCreated(packet: Packet, sub: nat)
    | QuerySending(packet: Packet, sub: nat)
    | Receiving(sub: nat)
    | Removing(sub: nat, outcome: Outcome)
    | Closing(sub: nat, outcome: Outcome)
    | Releasing(outcome: Outcome)
    // HandlePacket for a DNS answer
    | AnswerStart(packet: Packet, sub: nat)
    | AnswerWaiting(packet: Packet, sub: nat)
    | AnswerClosing(sub: nat)
    // SendPacket to anywhere else
    | DefaultStart(packet: Packet, dest: Addr)
    | DefaultAsleep(packet: Packet, dest: Addr)
    | DefaultWoken(packet: Packet, dest: Addr)
    | DefaultCreating(packet: Packet, dest: Addr)
    | DefaultCreated(packet: Packet, dest: Addr, made: Option<nat>)
    | DefaultSending(packet: Packet, dest: Addr, sub: nat)
    // ReceivePackets of the parent
    | ParentStart
    | ParentSelecting
    | ParentReceiving(sub: nat)
    | ParentReleasing
    | ParentWaiting
    // Close of the parent
    | CloseStart
    | Done(outcome: Outcome)

  datatype DefState = Idle | Initializing | Initialized(sender: Option<nat>)

  /** A sub-association: its sender may be closed any number of times. */
  datatype Sub = Sub(dns: bool, closed: bool, handled: bool)

  datatype Message = Sent(sub: nat, packet: Packet, dest: Addr) | Delivered(sub: nat, packet: Packet, source: Addr)

  /** What the goroutines share: the fields of `interceptAssoc`, and what has happened so far. */
  datatype Shared = Shared(
    isClosed: bool,
    activeCount: int,
    defState: DefState,
    // the receiver waiting in defReceiverChan
    queued: seq<nat>,
    dnsSenders: set<nat>,
    handlerReady: bool,
    // sub-associations created, calls of the default relay's NewAssociation, closings of closeChan,
    // calls of cond.Broadcast, increments of activeCount, and packets passed on
    subs: seq<Sub>,
    defCalls: nat,
    closings: nat,
    broadcasts: nat,
    begun: nat,
    messages: seq<Message>)
  {
    function CloseSub(i: nat): Shared {
      if i < |subs| then this.(subs := subs[i := subs[i].(closed := true)]) else this
    }

    function Broadcast(): Shared {
      this.(broadcasts := broadcasts + 1)
    }

    /** `closeLocked`. */
    function CloseLocked(): Shared {
      this.(isClosed := true, closings := closings + 1, subs := CloseStored(subs, dnsSenders, defState)).Broadcast()
    }

    /** `Release`. */
    function Release(): Shared {
      var released := this.(activeCount := activeCount - 1);
      if released.activeCount == 0 && !isClosed then released.CloseLocked() else released
    }

    function Begin(): Shared {
      this.(activeCount := activeCount + 1, begun := begun + 1)
    }

    function Create(dns: bool): Shared {
      this.(subs := subs + [Sub(dns, false, false)])
    }

    function Record(m: Message): Shared {
      this.(messages := messages + [m])
    }
  }

  /** What came from outside: packets to send, and packets that a sub-association received. */
  datatype Input =
    | Called(packet: Packet, dest: Addr)
    | Answered(sub: nat, packet: Packet)
    | Arrived(sub: nat, packet: Packet, source: Addr)

  datatype State = State(shared: Shared, threads: seq<Pc>, inputs: seq<Input>)

  function CloseStored(subs: seq<Sub>, dnsSenders: set<nat>, defState: DefState): (r: seq<Sub>)
    ensures |r| == |subs|
  {
    seq(|subs|, i requires 0 <= i < |subs| =>
      if i in dnsSenders || defState == Initialized(Some(i)) then subs[i].(closed := true) else subs[i])
  }

  function WakeOne(pc: Pc): Pc {
    if pc.DefaultAsleep? then DefaultWoken(pc.packet, pc.dest) else pc
  }

  function Wake(threads: seq<Pc>): (r: seq<Pc>)
    ensures |r| == |threads|
  {
    seq(|threads|, t requires 0 <= t < |threads| => WakeOne(threads[t]))
  }

  function Init(): State {
    State(Shared(false, 0, Idle, [], {}, false, [], 0, 0, 0, 0, []), [], [])
  }

  // The steps: a goroutine at pc takes the shared state a to b and goes on at pc'.

  /** `handleDNSQuery` and `runDNSReceiver`. */
  ghost predicate QueryMove(r: Relay, a: Shared, pc: Pc, b: Shared, pc': Pc) {
    match pc
    case QueryStart(p) =>
      if a.isClosed then b == a && pc' == Done(ErrClosed) else b == a.Begin() && pc' == QueryCreating(p)
    case QueryCreating(p) =>
      || (b == a && pc' == Releasing(Failed))
      || (b == a.Create(true) && pc' == QueryCreated(p, |a.subs|))
    case QueryCreated(p, i) =>
      if a.isClosed then b == a && pc' == Closing(i, ErrClosed)
      else b == a.(dnsSenders := a.dnsSenders + {i}) && pc' == QuerySending(p, i)
    case QuerySending(p, i) =>
      b == a.Record(Sent(i, p, r.dnsRemoteResolver)) && (pc' == Removing(i, Failed) || pc' == Receiving(i))
    case Receiving(i) => b == a && pc' == Removing(i, Ok)
    case Removing(i, o) => b == a.(dnsSenders := a.dnsSenders - {i}) && pc' == Closing(i, o)
    case Closing(i, o) => b == a.CloseSub(i) && pc' == Releasing(o)
    case Releasing(o) => b == a.Release() && pc' == Done(o)
    case _ => false
  }

  /** `singlePacketHandler.HandlePacket`. */
  ghost predicate AnswerMove(r: Relay, a: Shared, pc: Pc, b: Shared, pc': Pc) {
    match pc
    case AnswerStart(p, i) =>
      i < |a.subs| &&
      if a.subs[i].handled then b == a && pc' == Done(Ok)
      else b == a.(subs := a.subs[i := a.subs[i].(handled := true)]) && pc' == AnswerWaiting(p, i)
    case AnswerWaiting(p, i) =>
      || (a.handlerReady && b == a.Record(Delivered(i, p, r.dnsLocalResolver)) && pc' == AnswerClosing(i))
      || (a.isClosed && b == a && pc' == Done(ErrClosed))
    case AnswerClosing(i) => b == a.CloseSub(i) && pc' == Done(Ok)
    case _ => false
  }

  /** Inside the mutex: use the cached result, sleep, or start the initialization. */
  ghost predicate UseDefault(a: Shared, p: Packet, dest: Addr, b: Shared, pc': Pc) {
    if a.isClosed then b == a && pc' == Done(ErrClosed)
    else match a.defState
      case Initializing => b == a && pc' == DefaultAsleep(p, dest)
      case Initialized(sender) =>
        b == a && pc' == if sender.Some? then DefaultSending(p, dest, sender.value) else Done(Failed)
      case Idle => b == a.(defState := Initializing) && pc' == DefaultCreating(p, dest)
  }

  /** `getOrCreateDefaultSender`, and SendPacket around it. */
  ghost predicate DefaultMove(a: Shared, pc: Pc, b: Shared, pc': Pc) {
    match pc
    case DefaultStart(p, dest) => UseDefault(a, p, dest, b, pc')
    case DefaultWoken(p, dest) => UseDefault(a, p, dest, b, pc')
    case DefaultCreating(p, dest) =>
      var called := a.(defCalls := a.defCalls + 1);
      || (b == called && pc' == DefaultCreated(p, dest, None))
      || (b == called.Create(false) && pc' == DefaultCreated(p, dest, Some(|a.subs|)))
    case DefaultCreated(p, dest, made) =>
      if a.isClosed then
        var dropped := if made.Some? then a.CloseSub(made.value) else a;
        b == dropped.(defState := Initialized(None)).Broadcast() && pc' == Done(ErrClosed)
      else
        var kept := a.(defState := Initialized(made)).Broadcast();
        if made.None? then b == kept && pc' == Done(Failed)
        else b == kept.Begin().(queued := a.queued + [made.value]) && pc' == DefaultSending(p, dest, made.value)
    case DefaultSending(p, dest, i) => b == a.Record(Sent(i, p, dest)) && (pc' == Done(Ok) || pc' == Done(Failed))
    case _ => false
  }

  /** The parent's `ReceivePackets` and `Close`. */
  ghost predicate ParentMove(a: Shared, pc: Pc, b: Shared, pc': Pc) {
    match pc
    case ParentStart =>
      if a.isClosed then b == a && pc' == Done(ErrClosed)
      else if a.handlerReady then b == a && pc' == Done(Failed)
      else b == a.(handlerReady := true) && pc' == ParentSelecting
    case ParentSelecting =>
      || (a.queued != [] && b == a.(queued := a.queued[1..]) && pc' == ParentReceiving(a.queued[0]))
      || (a.isClosed && b == a && pc' == Done(Ok))
    case ParentReceiving(i) => b == a && pc' == ParentReleasing
    case ParentReleasing => b == a.Release() && pc' == ParentWaiting
    case ParentWaiting => a.isClosed && b == a && pc' == Done(Ok)
    case CloseStart => if a.isClosed then b == a && pc' == Done(ErrClosed) else b == a.CloseLocked() && pc' == Done(Ok)
    case _ => false
  }

  ghost predicate Move(r: Relay, a: Shared, pc: Pc, b: Shared, pc': Pc) {
    QueryMove(r, a, pc, b, pc') || AnswerMove(r, a, pc, b, pc') || DefaultMove(a, pc, b, pc') || ParentMove(a, pc, b, pc')
  }

  /** Goroutine t moves to pc'; a broadcast wakes every sleeping goroutine. */
  ghost predicate Step(r: Relay, s: State, t: nat, pc': Pc, s': State) {
    && t < |s.threads|
    && Move(r, s.shared, s.threads[t], s'.shared, pc')
    && s'.inputs == s.inputs
    && s'.threads == (if s'.shared.broadcasts == s.shared.broadcasts then s.threads else Wake(s.threads))[t := pc']
  }

  /** Where `SendPacket` starts. */
  function SendStart(r: Relay, packet: Packet, dest: Addr): Pc {
    if SameAddrPort(dest, r.dnsLocalResolver) then QueryStart(packet) else DefaultStart(packet, dest)
  }

  /** What the outside may do: call a method, or have a sub-association receive a packet. */
  datatype Event =
    | CallSend(packet: Packet, dest: Addr)
    | CallReceive
    | CallClose
    | Answer(via: nat, packet: Packet)
    | DefaultPacket(via: nat, packet: Packet, source: Addr)

  ghost predicate Outside(r: Relay, s: State, e: Event, s': State) {
    match e
    case CallSend(p, dest) =>
      s' == s.(threads := s.threads + [SendStart(r, p, dest)], inputs := s.inputs + [Called(p, dest)])
    case CallReceive => s' == s.(threads := s.threads + [ParentStart])
    case CallClose => s' == s.(threads := s.threads + [CloseStart])
    case Answer(t, p) =>
      t < |s.threads| && s.threads[t].Receiving? &&
      s' == s.(threads := s.threads + [AnswerStart(p, s.threads[t].sub)],
               inputs := s.inputs + [Answered(s.threads[t].sub, p)])
    case DefaultPacket(t, p, source) =>
      t < |s.threads| && s.threads[t].ParentReceiving? &&
      s' == s.(shared := s.shared.Record(Delivered(s.threads[t].sub, p, source)),
               inputs := s.inputs + [Arrived(s.threads[t].sub, p, source)])
  }

  ghost predicate Next(r: Relay, s: State, s': State) {
    (exists t: nat, pc' :: Step(r, s, t, pc', s')) || (exists e: Event :: Outside(r, s, e, s'))
  }

  /** Any finite interleaving, from a new parent association. */
  ghost predicate Run(r: Relay, run: seq<State>) {
    |run| > 0 && run[0] == Init() && forall i :: 0 <= i < |run| - 1 ==> Next(r, run[i], run[i + 1])
  }

  // Counting goroutines.

  datatype Role =
    | Active              // between an increment of activeCount and its Release
    | Initializer         // initializing the default association
    | Caller              // about to call the default relay's NewAssociation
    | Closer(sub: nat)    // has the sender of `sub` to close, or to hand over
    | Owner(sub: nat)     // the goroutine of the query of `sub`, until it has closed the sender
    | Unsent(sub: nat)    // may still send the query of `sub`
    | Forwarder(sub: nat) // may still forward an answer of `sub`
    | Work                // the most steps it has left

  /** The most steps a goroutine at pc can still take. */
  function StepsLeft(pc: Pc): nat {
    match pc
    case QueryStart(_) => 8
    case QueryCreating(_) => 7
    case QueryCreated(_, _) => 6
    case QuerySending(_, _) => 5
    case Receiving(_) => 4
    case Removing(_, _) => 3
    case Closing(_, _) => 2
    case Releasing(_) => 1
    case AnswerStart(_, _) => 3
    case AnswerWaiting(_, _) => 2
    case AnswerClosing(_) => 1
    case DefaultStart(_, _) => 5
    case DefaultAsleep(_, _) => 4
    case DefaultWoken(_, _) => 4
    case DefaultCreating(_, _) => 3
    case DefaultCreated(_, _, _) => 2
    case DefaultSending(_, _, _) => 1
    case ParentStart => 5
    case ParentSelecting => 4
    case ParentReceiving(_) => 3
    case ParentReleasing => 2
    case ParentWaiting => 1
    case CloseStart => 1
    case Done(_) => 0
  }

  /** What pc adds to the count for a role: 0 or 1, except for Work. */
  function Weight(k: Role, pc: Pc): nat {
    match k
    case Active =>
      if pc.QueryCreating? || pc.QueryCreated? || pc.QuerySending? || pc.Receiving? || pc.Removing?
         || pc.Closing? || pc.Releasing? || pc.ParentReceiving? || pc.ParentReleasing? then 1 else 0
    case Initializer => if pc.DefaultCreating? || pc.DefaultCreated? then 1 else 0
    case Caller => if pc.DefaultCreating? then 1 else 0
    case Closer(i) =>
      if (pc.QueryCreated? && pc.sub == i) || (pc.Closing? && pc.sub == i)
         || (pc.DefaultCreated? && pc.made == Some(i)) then 1 else 0
    case Owner(i) =>
      if (pc.QueryCreated? || pc.QuerySending? || pc.Receiving? || pc.Removing? || pc.Closing?) && pc.sub == i then 1 else 0
    case Unsent(i) => if (pc.QueryCreated? || pc.QuerySending?) && pc.sub == i then 1 else 0
    case Forwarder(i) => if pc.AnswerWaiting? && pc.sub == i then 1 else 0
    case Work => StepsLeft(pc)
  }

  function By(k: Role): Pc -> nat {
    pc => Weight(k, pc)
  }

  function Count(k: Role, threads: seq<Pc>): nat {
    Counting.Total(By(k), threads)
  }

  lemma CountMove(k: Role, threads: seq<Pc>, t: nat, pc: Pc)
    requires t < |threads|
    ensures Count(k, threads[t := pc]) == Count(k, threads) - Weight(k, threads[t]) + Weight(k, pc)
    ensures Count(k, threads) >= Weight(k, threads[t])
  {
    Counting.Move(By(k), threads, t, pc);
  }

  lemma CountWake(k: Role, threads: seq<Pc>)
    ensures Count(k, Wake(threads)) == Count(k, threads)
  {
    Counting.Below(By(k), threads, By(k), Wake(threads));
    Counting.Below(By(k), Wake(threads), By(k), threads);
  }

  lemma CountNone(k: Role, threads: seq<Pc>)
    ensures Count(k, threads) == 0 <==> forall t :: 0 <= t < |threads| ==> Weight(k, threads[t]) == 0
  {
    Counting.Zero(By(k), threads);
  }

  lemma CountSome(k: Role, threads: seq<Pc>) returns (t: nat)
    requires Count(k, threads) > 0
    ensures t < |threads| && Weight(k, threads[t]) > 0
  {
    t := Counting.Some(By(k), threads);
  }

  /** How many packets sub-association i has sent, or delivered. */
  function Tally(i: nat, sent: bool, messages: seq<Message>): nat {
    if messages == [] then 0
    else
      var m := messages[|messages| - 1];
      Tally(i, sent, messages[..|messages| - 1]) + if m.sub == i && m.Sent? == sent then 1 else 0
  }

  lemma {:induction false} TallyNone(i: nat, sent: bool, messages: seq<Message>)
    requires forall m :: m in messages ==> m.sub != i
    ensures Tally(i, sent, messages) == 0
  {
    if messages == [] {
    } else {
      TallyNone(i, sent, messages[..|messages| - 1]);
    }
  }

  lemma {:induction false} TallyOfTwo(i: nat, sent: bool, messages: seq<Message>, a: nat, b: nat)
    requires a < b < |messages| && messages[a].sub == messages[b].sub == i
    requires messages[a].Sent? == messages[b].Sent? == sent
    ensures Tally(i, sent, messages) >= 2
  {
    var init := messages[..|messages| - 1];
    if b < |messages| - 1 {
      TallyOfTwo(i, sent, init, a, b);
    } else {
      TallyOfOne(i, sent, init, a);
    }
  }

  lemma {:induction false} TallyOfOne(i: nat, sent: bool, messages: seq<Message>, a: nat)
    requires a < |messages| && messages[a].sub == i && messages[a].Sent? == sent
    ensures Tally(i, sent, messages) >= 1
  {
    if a == |messages| - 1 {
    } else {
      TallyOfOne(i, sent, messages[..|messages| - 1], a);
    }
  }

  // What every step keeps.

  /** Every active sub-association is counted once: by a goroutine, or by the receiver that is queued
      and never taken. */
  ghost predicate Accounts(s: State) {
    && s.shared.activeCount == Count(Active, s.threads) + |s.shared.queued|
    && |s.shared.queued| <= (if s.shared.defState.Initialized? then 1 else 0)
    && s.shared.closings == (if s.shared.isClosed then 1 else 0)
  }

  /** The parent stays open only while something it began is still active. */
  ghost predicate LifeByCount(s: State) {
    s.shared.isClosed || s.shared.activeCount > 0 || s.shared.begun == 0
  }

  /** One initializer while initializing, and at most one call of NewAssociation ever. */
  ghost predicate Lazy(s: State) {
    && Count(Initializer, s.threads) == (if s.shared.defState == Initializing then 1 else 0)
    && s.shared.defCalls + Count(Caller, s.threads) == (if s.shared.defState == Idle then 0 else 1)
  }

  /** Nobody sleeps on the condition variable without an initialization to wait for, and nobody who
      was woken has to sleep again. */
  ghost predicate Awake(s: State) {
    forall t :: 0 <= t < |s.threads| ==> AwakeAt(s.shared, s.threads[t])
  }

  ghost predicate AwakeAt(a: Shared, pc: Pc) {
    && (pc.DefaultAsleep? ==> a.defState == Initializing && !a.isClosed)
    && (pc.DefaultWoken? ==> a.defState.Initialized? || a.isClosed)
  }

  /** A step moves one goroutine, and may wake the sleeping ones, so counts change by its weight. */
  lemma CountsMove(k: Role, r: Relay, s: State, t: nat, pc': Pc, s': State)
    requires Step(r, s, t, pc', s')
    ensures Count(k, s'.threads) == Count(k, s.threads) - Weight(k, s.threads[t]) + Weight(k, pc')
    ensures Count(k, s.threads) >= Weight(k, s.threads[t])
  {
    CountWake(k, s.threads);
    CountMove(k, s.threads, t, pc');
    CountMove(k, Wake(s.threads), t, pc');
  }

  /** What a move does to the accounts. */
  ghost predicate Balances(a: Shared, pc: Pc, b: Shared, pc': Pc) {
    && b.activeCount - |b.queued| - Weight(Active, pc') == a.activeCount - |a.queued| - Weight(Active, pc)
    && |b.queued| <= (if b.defState.Initialized? then 1 else 0)
    && (a.isClosed ==> b.isClosed)
    && (b.isClosed && !a.isClosed ==> pc.CloseStart? || b.activeCount == 0)
    && b.closings == a.closings + (if b.isClosed && !a.isClosed then 1 else 0)
    && (a.activeCount >= 0 && (a.isClosed || a.activeCount > 0 || a.begun == 0)
        ==> b.isClosed || b.activeCount > 0 || b.begun == 0)
  }

  lemma QueryBalances(r: Relay, a: Shared, pc: Pc, b: Shared, pc': Pc)
    requires QueryMove(r, a, pc, b, pc') && |a.queued| <= (if a.defState.Initialized? then 1 else 0)
    ensures Balances(a, pc, b, pc')
  {}

  lemma AnswerBalances(r: Relay, a: Shared, pc: Pc, b: Shared, pc': Pc)
    requires AnswerMove(r, a, pc, b, pc') && |a.queued| <= (if a.defState.Initialized? then 1 else 0)
    ensures Balances(a, pc, b, pc')
  {}

  lemma DefaultBalances(a: Shared, pc: Pc, b: Shared, pc': Pc)
    requires DefaultMove(a, pc, b, pc') && |a.queued| <= (if a.defState.Initialized? then 1 else 0)
    requires pc.DefaultCreated? ==> a.defState == Initializing
    ensures Balances(a, pc, b, pc')
  {
    if pc.DefaultCreated? {
      CreatedBalances(a, pc, b, pc');
    }
  }

  lemma CreatedBalances(a: Shared, pc: Pc, b: Shared, pc': Pc)
    requires DefaultMove(a, pc, b, pc') && pc.DefaultCreated? && a.defState == Initializing && a.queued == []
    ensures Balances(a, pc, b, pc')
  {}

  lemma ParentBalances(a: Shared, pc: Pc, b: Shared, pc': Pc)
    requires ParentMove(a, pc, b, pc') && |a.queued| <= (if a.defState.Initialized? then 1 else 0)
    ensures Balances(a, pc, b, pc')
  {}

  lemma MoveBalances(r: Relay, a: Shared, pc: Pc, b: Shared, pc': Pc)
    requires Move(r, a, pc, b, pc') && |a.queued| <= (if a.defState.Initialized? then 1 else 0)
    requires pc.DefaultCreated? ==> a.defState == Initializing
    ensures Balances(a, pc, b, pc')
  {
    if QueryMove(r, a, pc, b, pc') {
      QueryBalances(r, a, pc, b, pc');
    } else if AnswerMove(r, a, pc, b, pc') {
      AnswerBalances(r, a, pc, b, pc');
    } else if DefaultMove(a, pc, b, pc') {
      DefaultBalances(a, pc, b, pc');
    } else {
      ParentBalances(a, pc, b, pc');
    }
  }

  lemma AccountsKept(r: Relay, s: State, t: nat, pc': Pc, s': State)
    requires Step(r, s, t, pc', s') && Accounts(s) && Lazy(s) && LifeByCount(s)
    ensures Accounts(s') && LifeByCount(s')
  {
    CountsMove(Active, r, s, t, pc', s');
    CountsMove(Initializer, r, s, t, pc', s');
    MoveBalances(r, s.shared, s.threads[t], s'.shared, pc');
  }

  /** What a move does to the lazy initialization, and to those who wait for it. */
  ghost predicate Initializes(a: Shared, pc: Pc, b: Shared, pc': Pc) {
    && (if b.defState == Initializing then 1 else 0) - Weight(Initializer, pc')
       == (if a.defState == Initializing then 1 else 0) - Weight(Initializer, pc)
    && b.defCalls + Weight(Caller, pc') - (if b.defState == Idle then 0 else 1)
       == a.defCalls + Weight(Caller, pc) - (if a.defState == Idle then 0 else 1)
    && (a.defState.Initialized? || a.isClosed ==> b.defState.Initialized? || b.isClosed)
    && AwakeAt(b, pc')
    && if b.broadcasts != a.broadcasts then b.defState.Initialized? || b.isClosed
       else a.defState == Initializing && !a.isClosed ==> b.defState == Initializing && !b.isClosed
  }

  lemma QueryInitializes(r: Relay, a: Shared, pc: Pc, b: Shared, pc': Pc)
    requires QueryMove(r, a, pc, b, pc')
    ensures Initializes(a, pc, b, pc')
  {}

  lemma AnswerInitializes(r: Relay, a: Shared, pc: Pc, b: Shared, pc': Pc)
    requires AnswerMove(r, a, pc, b, pc')
    ensures Initializes(a, pc, b, pc')
  {}

  lemma DefaultInitializes(a: Shared, pc: Pc, b: Shared, pc': Pc)
    requires DefaultMove(a, pc, b, pc') && AwakeAt(a, pc)
    requires Weight(Initializer, pc) == 1 ==> a.defState == Initializing
    ensures Initializes(a, pc, b, pc')
  {}

  lemma ParentInitializes(a: Shared, pc: Pc, b: Shared, pc': Pc)
    requires ParentMove(a, pc, b, pc')
    ensures Initializes(a, pc, b, pc')
  {}

  lemma MoveInitializes(r: Relay, a: Shared, pc: Pc, b: Shared, pc': Pc)
    requires Move(r, a, pc, b, pc') && AwakeAt(a, pc)
    requires Weight(Initializer, pc) == 1 ==> a.defState == Initializing
    ensures Initializes(a, pc, b, pc')
  {
    if DefaultMove(a, pc, b, pc') {
      DefaultInitializes(a, pc, b, pc');
    } else if ParentMove(a, pc, b, pc') {
      ParentInitializes(a, pc, b, pc');
    } else if QueryMove(r, a, pc, b, pc') {
      QueryInitializes(r, a, pc, b, pc');
    } else {
      AnswerInitializes(r, a, pc, b, pc');
    }
  }

  lemma LazyKept(r: Relay, s: State, t: nat, pc': Pc, s': State)
    requires Step(r, s, t, pc', s') && Lazy(s) && Awake(s)
    ensures Lazy(s') && Awake(s')
  {
    CountsMove(Initializer, r, s, t, pc', s');
    CountsMove(Caller, r, s, t, pc', s');
    MoveInitializes(r, s.shared, s.threads[t], s'.shared, pc');
    forall u | 0 <= u < |s'.threads|
      ensures AwakeAt(s'.shared, s'.threads[u])
    {
      assert AwakeAt(s.shared, s.threads[u]);
    }
  }

  // Sub-associations.

  ghost predicate Known(a: Shared, i: nat, dns: bool) {
    i < |a.subs| && a.subs[i].dns == dns
  }

  /** The sub-association pc names is of the kind pc takes it for, and a packet on its way to the
      default relay is not for the local resolver. */
  ghost predicate Sound(r: Relay, a: Shared, pc: Pc) {
    match pc
    case QueryCreated(_, i) => Known(a, i, true)
    case QuerySending(_, i) => Known(a, i, true)
    case Receiving(i) => Known(a, i, true)
    case Removing(i, _) => Known(a, i, true)
    case Closing(i, _) => Known(a, i, true)
    case AnswerStart(_, i) => Known(a, i, true)
    case AnswerWaiting(_, i) => Known(a, i, true)
    case AnswerClosing(i) => Known(a, i, true)
    case DefaultStart(_, dest) => !SameAddrPort(dest, r.dnsLocalResolver)
    case DefaultAsleep(_, dest) => !SameAddrPort(dest, r.dnsLocalResolver)
    case DefaultWoken(_, dest) => !SameAddrPort(dest, r.dnsLocalResolver)
    case DefaultCreating(_, dest) => !SameAddrPort(dest, r.dnsLocalResolver)
    case DefaultCreated(_, dest, made) =>
      !SameAddrPort(dest, r.dnsLocalResolver) && (made.Some? ==> Known(a, made.value, false))
    case DefaultSending(_, dest, i) => !SameAddrPort(dest, r.dnsLocalResolver) && Known(a, i, false)
    case ParentReceiving(i) => Known(a, i, false)
    case _ => true
  }

  /** Queries go to the remote resolver and answers come from the local one; other packets keep their
      addresses and never go to the local resolver. */
  ghost predicate RoutedAs(r: Relay, a: Shared, m: Message) {
    m.sub < |a.subs| &&
    match m
    case Sent(i, _, dest) =>
      if a.subs[i].dns then dest == r.dnsRemoteResolver else !SameAddrPort(dest, r.dnsLocalResolver)
    case Delivered(i, _, source) => a.subs[i].dns ==> source == r.dnsLocalResolver
  }

  ghost predicate KnownSubs(r: Relay, a: Shared) {
    && (forall k :: 0 <= k < |a.queued| ==> Known(a, a.queued[k], false))
    && (a.defState.Initialized? && a.defState.sender.Some? ==> Known(a, a.defState.sender.value, false))
    && (forall k :: 0 <= k < |a.messages| ==> RoutedAs(r, a, a.messages[k]))
  }

  ghost predicate Routed(r: Relay, s: State) {
    && KnownSubs(r, s.shared)
    && (forall t :: 0 <= t < |s.threads| ==> Sound(r, s.shared, s.threads[t]))
  }

  /** Sub-associations stay what they are. */
  ghost predicate Extends(a: Shared, b: Shared) {
    && |a.subs| <= |b.subs| <= |a.subs| + 1
    && forall i :: 0 <= i < |a.subs| ==> b.subs[i].dns == a.subs[i].dns && (a.subs[i].closed ==> b.subs[i].closed)
  }

  lemma ExtendedRoutes(r: Relay, a: Shared, b: Shared)
    requires KnownSubs(r, a) && Extends(a, b)
    requires b.queued == a.queued && b.defState == a.defState && b.messages == a.messages
    ensures KnownSubs(r, b)
  {}

  lemma RecordRoutes(r: Relay, a: Shared, m: Message)
    requires KnownSubs(r, a) && RoutedAs(r, a, m)
    ensures Extends(a, a.Record(m)) && KnownSubs(r, a.Record(m))
  {}

  lemma QueryRoutes(r: Relay, a: Shared, pc: Pc, b: Shared, pc': Pc)
    requires QueryMove(r, a, pc, b, pc') && KnownSubs(r, a) && Sound(r, a, pc)
    ensures Extends(a, b) && KnownSubs(r, b) && Sound(r, b, pc')
  {
    if pc.QuerySending? {
      RecordRoutes(r, a, Sent(pc.sub, pc.packet, r.dnsRemoteResolver));
    } else {
      ExtendedRoutes(r, a, b);
    }
  }

  lemma AnswerRoutes(r: Relay, a: Shared, pc: Pc, b: Shared, pc': Pc)
    requires AnswerMove(r, a, pc, b, pc') && KnownSubs(r, a) && Sound(r, a, pc)
    ensures Extends(a, b) && KnownSubs(r, b) && Sound(r, b, pc')
  {}

  lemma UseDefaultRoutes(r: Relay, a: Shared, p: Packet, dest: Addr, b: Shared, pc': Pc)
    requires UseDefault(a, p, dest, b, pc') && KnownSubs(r, a) && !SameAddrPort(dest, r.dnsLocalResolver)
    ensures Extends(a, b) && KnownSubs(r, b) && Sound(r, b, pc')
  {}

  lemma DefaultRoutes(r: Relay, a: Shared, pc: Pc, b: Shared, pc': Pc)
    requires DefaultMove(a, pc, b, pc') && KnownSubs(r, a) && Sound(r, a, pc)
    ensures Extends(a, b) && KnownSubs(r, b) && Sound(r, b, pc')
  {
    if pc.DefaultStart? || pc.DefaultWoken? {
      UseDefaultRoutes(r, a, pc.packet, pc.dest, b, pc');
    } else {
      CreationRoutes(r, a, pc, b, pc');
    }
  }

  lemma CreationRoutes(r: Relay, a: Shared, pc: Pc, b: Shared, pc': Pc)
    requires pc.DefaultCreating? || pc.DefaultCreated? || pc.DefaultSending?
    requires DefaultMove(a, pc, b, pc') && KnownSubs(r, a) && Sound(r, a, pc)
    ensures Extends(a, b) && KnownSubs(r, b) && Sound(r, b, pc')
  {
    if pc.DefaultSending? {
      RecordRoutes(r, a, Sent(pc.sub, pc.packet, pc.dest));
    } else if pc.DefaultCreating? {
      ExtendedRoutes(r, a, b);
    } else {
      CreatedRoutes(r, a, pc, b, pc');
    }
  }

  lemma CreatedRoutes(r: Relay, a: Shared, pc: Pc, b: Shared, pc': Pc)
    requires pc.DefaultCreated? && DefaultMove(a, pc, b, pc') && KnownSubs(r, a) && Sound(r, a, pc)
    ensures Extends(a, b) && KnownSubs(r, b) && Sound(r, b, pc')
  {}

  lemma ParentRoutes(r: Relay, a: Shared, pc: Pc, b: Shared, pc': Pc)
    requires ParentMove(a, pc, b, pc') && KnownSubs(r, a) && Sound(r, a, pc)
    ensures Extends(a, b) && KnownSubs(r, b) && Sound(r, b, pc')
  {
    if b.queued == a.queued {
      ExtendedRoutes(r, a, b);
    } else {
      assert b == a.(queued := a.queued[1..]);
    }
  }

  lemma MoveRoutes(r: Relay, a: Shared, pc: Pc, b: Shared, pc': Pc)
    requires Move(r, a, pc, b, pc') && KnownSubs(r, a) && Sound(r, a, pc)
    ensures Extends(a, b) && KnownSubs(r, b) && Sound(r, b, pc')
  {
    if DefaultMove(a, pc, b, pc') {
      DefaultRoutes(r, a, pc, b, pc');
    } else if ParentMove(a, pc, b, pc') {
      ParentRoutes(r, a, pc, b, pc');
    } else if QueryMove(r, a, pc, b, pc') {
      QueryRoutes(r, a, pc, b, pc');
    } else {
      AnswerRoutes(r, a, pc, b, pc');
    }
  }

  lemma RoutedKept(r: Relay, s: State, t: nat, pc': Pc, s': State)
    requires Step(r, s, t, pc', s') && Routed(r, s)
    ensures Routed(r, s') && Extends(s.shared, s'.shared)
  {
    MoveRoutes(r, s.shared, s.threads[t], s'.shared, pc');
    forall u | 0 <= u < |s'.threads|
      ensures Sound(r, s'.shared, s'.threads[u])
    {
      if u != t {
        assert Sound(r, s.shared, s.threads[u]);
      }
    }
  }

  /** Where closing the parent will find the sender. */
  ghost predicate Stored(a: Shared, i: nat) {
    !a.isClosed && (i in a.dnsSenders || a.defState == Initialized(Some(i)))
  }

  /** Every sender is closed, or is stored, or has a goroutine that must still close or store it. */
  ghost predicate NoLeak(s: State) {
    forall i :: 0 <= i < |s.shared.subs| ==>
      s.shared.subs[i].closed || Stored(s.shared, i) || Count(Closer(i), s.threads) > 0
  }

  /** A move may leave a sender open only in the hands of the goroutine that moves. */
  ghost predicate Hands(a: Shared, pc: Pc, b: Shared, pc': Pc) {
    forall i :: 0 <= i < |b.subs| && (i == |a.subs| || Stored(a, i) || Weight(Closer(i), pc) > 0) ==>
      b.subs[i].closed || Stored(b, i) || Weight(Closer(i), pc') > 0
  }

  lemma QueryHands(r: Relay, a: Shared, pc: Pc, b: Shared, pc': Pc)
    requires QueryMove(r, a, pc, b, pc')
    ensures Hands(a, pc, b, pc')
  {}

  lemma DefaultHands(a: Shared, pc: Pc, b: Shared, pc': Pc)
    requires DefaultMove(a, pc, b, pc') && (pc.DefaultCreated? ==> a.defState == Initializing)
    ensures Hands(a, pc, b, pc')
  {}

  lemma OtherHands(r: Relay, a: Shared, pc: Pc, b: Shared, pc': Pc)
    requires AnswerMove(r, a, pc, b, pc') || ParentMove(a, pc, b, pc')
    ensures Hands(a, pc, b, pc')
  {}

  lemma NoLeakKept(r: Relay, s: State, t: nat, pc': Pc, s': State)
    requires Step(r, s, t, pc', s') && NoLeak(s) && Lazy(s) && Extends(s.shared, s'.shared)
    ensures NoLeak(s')
  {
    var a, pc, b := s.shared, s.threads[t], s'.shared;
    CountsMove(Initializer, r, s, t, pc', s');
    if DefaultMove(a, pc, b, pc') {
      DefaultHands(a, pc, b, pc');
    } else if QueryMove(r, a, pc, b, pc') {
      QueryHands(r, a, pc, b, pc');
    } else {
      OtherHands(r, a, pc, b, pc');
    }
    forall i | 0 <= i < |b.subs|
      ensures b.subs[i].closed || Stored(b, i) || Count(Closer(i), s'.threads) > 0
    {
      CountsMove(Closer(i), r, s, t, pc', s');
    }
  }

  /** A DNS sub-association sends one query at most, and forwards one answer at most. */
  ghost predicate OneShot(s: State) {
    forall i :: 0 <= i < |s.shared.subs| && s.shared.subs[i].dns ==>
      && Tally(i, true, s.shared.messages) + Count(Unsent(i), s.threads) <= 1
      && Tally(i, false, s.shared.messages) + Count(Forwarder(i), s.threads) <= Handled(s.shared, i)
  }

  function Handled(a: Shared, i: nat): nat
    requires i < |a.subs|
  {
    if a.subs[i].handled then 1 else 0
  }

  /** The packet a move from pc to pc' passes on. */
  function Written(r: Relay, pc: Pc, pc': Pc): seq<Message> {
    match pc
    case QuerySending(p, i) => [Sent(i, p, r.dnsRemoteResolver)]
    case AnswerWaiting(p, i) => if pc'.AnswerClosing? then [Delivered(i, p, r.dnsLocalResolver)] else []
    case DefaultSending(p, dest, i) => [Sent(i, p, dest)]
    case _ => []
  }

  function Tells(i: nat, sent: bool, w: seq<Message>): nat {
    if |w| == 1 && w[0].sub == i && w[0].Sent? == sent then 1 else 0
  }

  lemma TallyWritten(i: nat, sent: bool, messages: seq<Message>, w: seq<Message>)
    requires |w| <= 1
    ensures Tally(i, sent, messages + w) == Tally(i, sent, messages) + Tells(i, sent, w)
  {
    if w == [] {
      assert messages + w == messages;
    } else {
      assert (messages + w)[..|messages|] == messages;
    }
  }

  /** A move uses up what the goroutine had left to do for a DNS sub-association; one that creates a
      sub-association passes nothing on. */
  ghost predicate UsesUp(r: Relay, a: Shared, pc: Pc, b: Shared, pc': Pc) {
    && b.messages == a.messages + Written(r, pc, pc')
    && (|b.subs| > |a.subs| ==> Written(r, pc, pc') == [] && (pc'.QueryCreated? || pc'.DefaultCreated?))
    && forall i :: 0 <= i < |a.subs| && i < |b.subs| && a.subs[i].dns ==>
      && Tells(i, true, Written(r, pc, pc')) + Weight(Unsent(i), pc') <= Weight(Unsent(i), pc)
      && Tells(i, false, Written(r, pc, pc')) + Weight(Forwarder(i), pc') - Handled(b, i)
         <= Weight(Forwarder(i), pc) - Handled(a, i)
  }

  lemma QueryUsesUp(r: Relay, a: Shared, pc: Pc, b: Shared, pc': Pc)
    requires QueryMove(r, a, pc, b, pc')
    ensures UsesUp(r, a, pc, b, pc')
  {
    if pc.QueryCreating? || pc.QueryCreated? || pc.QuerySending? {
      SendingUsesUp(r, a, pc, b, pc');
    } else {
      EndingUsesUp(r, a, pc, b, pc');
    }
  }

  lemma SendingUsesUp(r: Relay, a: Shared, pc: Pc, b: Shared, pc': Pc)
    requires QueryMove(r, a, pc, b, pc') && (pc.QueryCreating? || pc.QueryCreated? || pc.QuerySending?)
    ensures UsesUp(r, a, pc, b, pc')
  {}

  lemma EndingUsesUp(r: Relay, a: Shared, pc: Pc, b: Shared, pc': Pc)
    requires QueryMove(r, a, pc, b, pc') && !pc.QueryCreating? && !pc.QueryCreated? && !pc.QuerySending?
    ensures UsesUp(r, a, pc, b, pc')
  {}

  lemma AnswerUsesUp(r: Relay, a: Shared, pc: Pc, b: Shared, pc': Pc)
    requires AnswerMove(r, a, pc, b, pc')
    ensures UsesUp(r, a, pc, b, pc')
  {}

  lemma UseDefaultIsQuiet(a: Shared, p: Packet, dest: Addr, b: Shared, pc': Pc)
    requires UseDefault(a, p, dest, b, pc')
    ensures b == a.(defState := b.defState) && (pc'.Done? || pc'.DefaultAsleep? || pc'.DefaultSending? || pc'.DefaultCreating?)
  {}

  lemma DefaultUsesUp(r: Relay, a: Shared, pc: Pc, b: Shared, pc': Pc)
    requires DefaultMove(a, pc, b, pc') && Sound(r, a, pc)
    ensures UsesUp(r, a, pc, b, pc')
  {
    if pc.DefaultStart? || pc.DefaultWoken? {
      UseDefaultIsQuiet(a, pc.packet, pc.dest, b, pc');
    } else {
      CreationUsesUp(r, a, pc, b, pc');
    }
  }

  lemma CreationUsesUp(r: Relay, a: Shared, pc: Pc, b: Shared, pc': Pc)
    requires pc.DefaultCreating? || pc.DefaultCreated? || pc.DefaultSending?
    requires DefaultMove(a, pc, b, pc') && Sound(r, a, pc)
    ensures UsesUp(r, a, pc, b, pc')
  {}

  lemma ParentUsesUp(r: Relay, a: Shared, pc: Pc, b: Shared, pc': Pc)
    requires ParentMove(a, pc, b, pc')
    ensures UsesUp(r, a, pc, b, pc')
  {}

  lemma MoveUsesUp(r: Relay, a: Shared, pc: Pc, b: Shared, pc': Pc)
    requires Move(r, a, pc, b, pc') && Sound(r, a, pc)
    ensures UsesUp(r, a, pc, b, pc')
  {
    if DefaultMove(a, pc, b, pc') {
      DefaultUsesUp(r, a, pc, b, pc');
    } else if ParentMove(a, pc, b, pc') {
      ParentUsesUp(r, a, pc, b, pc');
    } else if QueryMove(r, a, pc, b, pc') {
      QueryUsesUp(r, a, pc, b, pc');
    } else {
      AnswerUsesUp(r, a, pc, b, pc');
    }
  }

  /** A new sub-association has no history: nothing was sent over it, and nobody knows it. */
  lemma NewSubIsUnused(r: Relay, s: State)
    requires Routed(r, s)
    ensures var i := |s.shared.subs|;
            && Tally(i, true, s.shared.messages) == Tally(i, false, s.shared.messages) == 0
            && Count(Unsent(i), s.threads) == Count(Forwarder(i), s.threads) == 0
  {
    var i := |s.shared.subs|;
    forall k | 0 <= k < |s.shared.messages|
      ensures s.shared.messages[k].sub != i
    {
      assert RoutedAs(r, s.shared, s.shared.messages[k]);
    }
    TallyNone(i, true, s.shared.messages);
    TallyNone(i, false, s.shared.messages);
    forall t | 0 <= t < |s.threads|
      ensures Weight(Unsent(i), s.threads[t]) == Weight(Forwarder(i), s.threads[t]) == 0
    {
      assert Sound(r, s.shared, s.threads[t]);
    }
    CountNone(Unsent(i), s.threads);
    CountNone(Forwarder(i), s.threads);
  }

  /** The same for one sub-association, and one way. */
  lemma SentOnce(r: Relay, s: State, t: nat, pc': Pc, s': State, i: nat)
    requires Step(r, s, t, pc', s') && OneShot(s) && Routed(r, s) && Extends(s.shared, s'.shared)
    requires UsesUp(r, s.shared, s.threads[t], s'.shared, pc') && i < |s'.shared.subs| && s'.shared.subs[i].dns
    ensures Tally(i, true, s'.shared.messages) + Count(Unsent(i), s'.threads) <= 1
  {
    CountsMove(Unsent(i), r, s, t, pc', s');
    TallyWritten(i, true, s.shared.messages, Written(r, s.threads[t], pc'));
    if i == |s.shared.subs| {
      NewSubIsUnused(r, s);
    }
  }

  lemma DeliveredOnce(r: Relay, s: State, t: nat, pc': Pc, s': State, i: nat)
    requires Step(r, s, t, pc', s') && OneShot(s) && Routed(r, s) && Extends(s.shared, s'.shared)
    requires UsesUp(r, s.shared, s.threads[t], s'.shared, pc') && i < |s'.shared.subs| && s'.shared.subs[i].dns
    ensures Tally(i, false, s'.shared.messages) + Count(Forwarder(i), s'.threads) <= Handled(s'.shared, i)
  {
    CountsMove(Forwarder(i), r, s, t, pc', s');
    TallyWritten(i, false, s.shared.messages, Written(r, s.threads[t], pc'));
    if i == |s.shared.subs| {
      NewSubIsUnused(r, s);
    }
  }

  lemma OneShotKept(r: Relay, s: State, t: nat, pc': Pc, s': State)
    requires Step(r, s, t, pc', s') && OneShot(s) && Routed(r, s) && Extends(s.shared, s'.shared)
    ensures OneShot(s')
  {
    assert Sound(r, s.shared, s.threads[t]);
    MoveUsesUp(r, s.shared, s.threads[t], s'.shared, pc');
    forall i | 0 <= i < |s'.shared.subs| && s'.shared.subs[i].dns
      ensures Tally(i, true, s'.shared.messages) + Count(Unsent(i), s'.threads) <= 1
      ensures Tally(i, false, s'.shared.messages) + Count(Forwarder(i), s'.threads) <= Handled(s'.shared, i)
    {
      SentOnce(r, s, t, pc', s', i);
      DeliveredOnce(r, s, t, pc', s', i);
    }
  }

  // Where packets come from.

  /** The address of the local resolver: the same port, and the same address with an IPv4-mapped one taken
      for the IPv4 one. */
  predicate IsLocal(r: Relay, dest: Addr) {
    && dest.port == r.dnsLocalResolver.port && dest.ip.bits == r.dnsLocalResolver.ip.bits
    && dest.ip.V6? == r.dnsLocalResolver.ip.V6?
  }

  lemma SameIsLocal(r: Relay, dest: Addr)
    ensures SameAddrPort(dest, r.dnsLocalResolver) <==> IsLocal(r, dest)
  {}

  /** Somebody asked for p to be sent to the local resolver. */
  ghost predicate Queried(r: Relay, inputs: seq<Input>, p: Packet) {
    exists k :: 0 <= k < |inputs| && inputs[k].Called? && inputs[k].packet == p && IsLocal(r, inputs[k].dest)
  }

  /** Somebody asked for p to be sent to dest, which is not the local resolver. */
  ghost predicate Asked(r: Relay, inputs: seq<Input>, p: Packet, dest: Addr) {
    Called(p, dest) in inputs && !IsLocal(r, dest)
  }

  /** What a goroutine carries was given to it. */
  ghost predicate Carries(r: Relay, inputs: seq<Input>, pc: Pc) {
    match pc
    case QueryStart(p) => Queried(r, inputs, p)
    case QueryCreating(p) => Queried(r, inputs, p)
    case QueryCreated(p, _) => Queried(r, inputs, p)
    case QuerySending(p, _) => Queried(r, inputs, p)
    case AnswerStart(p, i) => Answered(i, p) in inputs
    case AnswerWaiting(p, i) => Answered(i, p) in inputs
    case DefaultStart(p, dest) => Asked(r, inputs, p, dest)
    case DefaultAsleep(p, dest) => Asked(r, inputs, p, dest)
    case DefaultWoken(p, dest) => Asked(r, inputs, p, dest)
    case DefaultCreating(p, dest) => Asked(r, inputs, p, dest)
    case DefaultCreated(p, dest, _) => Asked(r, inputs, p, dest)
    case DefaultSending(p, dest, _) => Asked(r, inputs, p, dest)
    case _ => true
  }

  /** A packet that was passed on was given to somebody to pass on, and in the right way: a query to the
      remote resolver and its answer as from the local one, and everything else as it was. */
  ghost predicate Explained(r: Relay, a: Shared, inputs: seq<Input>, m: Message) {
    m.sub < |a.subs| &&
    match m
    case Sent(i, p, dest) =>
      if a.subs[i].dns then dest == r.dnsRemoteResolver && Queried(r, inputs, p) else Asked(r, inputs, p, dest)
    case Delivered(i, p, source) =>
      if a.subs[i].dns then source == r.dnsLocalResolver && Answered(i, p) in inputs else Arrived(i, p, source) in inputs
  }

  ghost predicate Traced(r: Relay, s: State) {
    && (forall t :: 0 <= t < |s.threads| ==> Carries(r, s.inputs, s.threads[t]))
    && (forall k :: 0 <= k < |s.shared.messages| ==> Explained(r, s.shared, s.inputs, s.shared.messages[k]))
  }

  lemma QueryCarriesOn(r: Relay, a: Shared, pc: Pc, b: Shared, pc': Pc, inputs: seq<Input>)
    requires (QueryMove(r, a, pc, b, pc') || AnswerMove(r, a, pc, b, pc')) && Sound(r, a, pc) && Carries(r, inputs, pc)
    ensures Carries(r, inputs, pc')
    ensures |Written(r, pc, pc')| == 1 ==> Explained(r, a, inputs, Written(r, pc, pc')[0])
  {}

  lemma DefaultCarriesOn(r: Relay, a: Shared, pc: Pc, b: Shared, pc': Pc, inputs: seq<Input>)
    requires DefaultMove(a, pc, b, pc') && Sound(r, a, pc) && Carries(r, inputs, pc)
    ensures Carries(r, inputs, pc')
    ensures |Written(r, pc, pc')| == 1 ==> Explained(r, a, inputs, Written(r, pc, pc')[0])
  {}

  lemma MoveCarriesOn(r: Relay, a: Shared, pc: Pc, b: Shared, pc': Pc, inputs: seq<Input>)
    requires Move(r, a, pc, b, pc') && Sound(r, a, pc) && Carries(r, inputs, pc)
    ensures Carries(r, inputs, pc') && b.messages == a.messages + Written(r, pc, pc') && |Written(r, pc, pc')| <= 1
    ensures |Written(r, pc, pc')| == 1 ==> Explained(r, a, inputs, Written(r, pc, pc')[0])
  {
    MoveUsesUp(r, a, pc, b, pc');
    if DefaultMove(a, pc, b, pc') {
      DefaultCarriesOn(r, a, pc, b, pc', inputs);
    } else if !ParentMove(a, pc, b, pc') {
      QueryCarriesOn(r, a, pc, b, pc', inputs);
    }
  }

  lemma OneMoreExplained(r: Relay, a: Shared, b: Shared, inputs: seq<Input>, w: seq<Message>)
    requires Extends(a, b) && b.messages == a.messages + w && |w| <= 1
    requires forall k :: 0 <= k < |a.messages| ==> Explained(r, a, inputs, a.messages[k])
    requires |w| == 1 ==> Explained(r, a, inputs, w[0])
    ensures forall k :: 0 <= k < |b.messages| ==> Explained(r, b, inputs, b.messages[k])
  {
    forall k | 0 <= k < |b.messages|
      ensures Explained(r, b, inputs, b.messages[k])
    {
      assert Explained(r, a, inputs, b.messages[k]);
    }
  }

  lemma TracedKept(r: Relay, s: State, t: nat, pc': Pc, s': State)
    requires Step(r, s, t, pc', s') && Traced(r, s) && Routed(r, s) && Extends(s.shared, s'.shared)
    ensures Traced(r, s')
  {
    assert Sound(r, s.shared, s.threads[t]) && Carries(r, s.inputs, s.threads[t]);
    MoveCarriesOn(r, s.shared, s.threads[t], s'.shared, pc', s.inputs);
    OneMoreExplained(r, s.shared, s'.shared, s.inputs, Written(r, s.threads[t], pc'));
    forall u | 0 <= u < |s'.threads|
      ensures Carries(r, s'.inputs, s'.threads[u])
    {
      assert u != t ==> Carries(r, s.inputs, s.threads[u]);
    }
  }

  lemma QueriedStill(r: Relay, inputs: seq<Input>, more: Input, p: Packet)
    requires Queried(r, inputs, p)
    ensures Queried(r, inputs + [more], p)
  {
    var k :| 0 <= k < |inputs| && inputs[k].Called? && inputs[k].packet == p && IsLocal(r, inputs[k].dest);
    assert (inputs + [more])[k] == inputs[k];
  }

  lemma CarriesStill(r: Relay, inputs: seq<Input>, more: Input, pc: Pc)
    requires Carries(r, inputs, pc)
    ensures Carries(r, inputs + [more], pc)
  {
    if pc.QueryStart? || pc.QueryCreating? || pc.QueryCreated? || pc.QuerySending? {
      QueriedStill(r, inputs, more, pc.packet);
    }
  }

  lemma ExplainedStill(r: Relay, a: Shared, inputs: seq<Input>, more: Input, m: Message)
    requires Explained(r, a, inputs, m)
    ensures Explained(r, a, inputs + [more], m)
  {
    if m.Sent? && a.subs[m.sub].dns {
      QueriedStill(r, inputs, more, m.packet);
    }
  }

  /** More that came from outside explains no less. */
  lemma TracedStill(r: Relay, s: State, more: Input)
    requires Traced(r, s)
    ensures Traced(r, s.(inputs := s.inputs + [more]))
  {
    forall t | 0 <= t < |s.threads|
      ensures Carries(r, s.inputs + [more], s.threads[t])
    {
      CarriesStill(r, s.inputs, more, s.threads[t]);
    }
    forall k | 0 <= k < |s.shared.messages|
      ensures Explained(r, s.shared, s.inputs + [more], s.shared.messages[k])
    {
      ExplainedStill(r, s.shared, s.inputs, more, s.shared.messages[k]);
    }
  }

  /** A call goes the way of its destination. */
  lemma CalledCarries(r: Relay, inputs: seq<Input>, p: Packet, dest: Addr)
    ensures Carries(r, inputs + [Called(p, dest)], SendStart(r, p, dest))
  {
    SameIsLocal(r, dest);
    assert (inputs + [Called(p, dest)])[|inputs|] == Called(p, dest);
  }

  lemma OutsideIsTraced(r: Relay, s: State, e: Event, s': State)
    requires Outside(r, s, e, s') && Traced(r, s) && Routed(r, s)
    ensures Traced(r, s')
  {
    match e
    case CallSend(p, dest) =>
      TracedStill(r, s, Called(p, dest));
      CalledCarries(r, s.inputs, p, dest);
    case CallReceive =>
    case CallClose =>
    case Answer(t, p) => TracedStill(r, s, Answered(s.threads[t].sub, p));
    case DefaultPacket(t, p, source) =>
      assert Sound(r, s.shared, s.threads[t]);
      TracedStill(r, s, Arrived(s.threads[t].sub, p, source));
  }

  // No sender is closed early.

  /** An answer is only forwarded once it is marked as handled. */
  ghost predicate Marked(a: Shared, pc: Pc) {
    pc.AnswerWaiting? || pc.AnswerClosing? ==> pc.sub < |a.subs| && a.subs[pc.sub].handled
  }

  /** While the parent is open, a sender that is closed is that of a query which was answered, or whose
      goroutine is done with it. */
  ghost predicate ClosedInTime(s: State, i: nat)
    requires i < |s.shared.subs|
  {
    s.shared.subs[i].closed && !s.shared.isClosed ==>
      s.shared.subs[i].dns && (s.shared.subs[i].handled || Count(Owner(i), s.threads) == 0)
  }

  ghost predicate Unhurried(s: State) {
    && (forall i :: 0 <= i < |s.shared.subs| ==> Count(Owner(i), s.threads) <= 1 && ClosedInTime(s, i))
    && (forall t :: 0 <= t < |s.threads| ==> Marked(s.shared, s.threads[t]))
  }

  /** What a move closes while the parent is open, it closes in time. */
  ghost predicate ClosesInTime(a: Shared, pc: Pc, b: Shared, pc': Pc) {
    && (a.isClosed ==> b.isClosed) && |a.subs| <= |b.subs|
    && (forall i :: 0 <= i < |a.subs| && a.subs[i].handled ==> b.subs[i].handled)
    && (forall i :: 0 <= i < |a.subs| && b.subs[i].closed && !a.subs[i].closed && !b.isClosed ==>
          pc == AnswerClosing(i) || (pc.Closing? && pc.sub == i))
    && (forall i :: |a.subs| <= i < |b.subs| ==> !b.subs[i].closed)
    && (forall i: nat :: Weight(Owner(i), pc') <= Weight(Owner(i), pc) + B(i == |a.subs|))
    && (pc.Closing? ==> pc'.Releasing?) && Marked(b, pc')
  }

  lemma QueryClosesInTime(r: Relay, a: Shared, pc: Pc, b: Shared, pc': Pc)
    requires QueryMove(r, a, pc, b, pc')
    ensures ClosesInTime(a, pc, b, pc')
  {}

  lemma AnswerClosesInTime(r: Relay, a: Shared, pc: Pc, b: Shared, pc': Pc)
    requires AnswerMove(r, a, pc, b, pc') && Marked(a, pc)
    ensures ClosesInTime(a, pc, b, pc')
  {}

  lemma DefaultClosesInTime(a: Shared, pc: Pc, b: Shared, pc': Pc)
    requires DefaultMove(a, pc, b, pc')
    ensures ClosesInTime(a, pc, b, pc')
  {
    if pc.DefaultStart? || pc.DefaultWoken? {
      UseDefaultIsQuiet(a, pc.packet, pc.dest, b, pc');
    } else {
      CreationClosesInTime(a, pc, b, pc');
    }
  }

  lemma CreationClosesInTime(a: Shared, pc: Pc, b: Shared, pc': Pc)
    requires pc.DefaultCreating? || pc.DefaultCreated? || pc.DefaultSending?
    requires DefaultMove(a, pc, b, pc')
    ensures ClosesInTime(a, pc, b, pc')
  {}

  lemma ParentClosesInTime(a: Shared, pc: Pc, b: Shared, pc': Pc)
    requires ParentMove(a, pc, b, pc')
    ensures ClosesInTime(a, pc, b, pc')
  {}

  lemma MoveClosesInTime(r: Relay, a: Shared, pc: Pc, b: Shared, pc': Pc)
    requires Move(r, a, pc, b, pc') && Marked(a, pc)
    ensures ClosesInTime(a, pc, b, pc')
  {
    if QueryMove(r, a, pc, b, pc') {
      QueryClosesInTime(r, a, pc, b, pc');
    } else if AnswerMove(r, a, pc, b, pc') {
      AnswerClosesInTime(r, a, pc, b, pc');
    } else if DefaultMove(a, pc, b, pc') {
      DefaultClosesInTime(a, pc, b, pc');
    } else {
      ParentClosesInTime(a, pc, b, pc');
    }
  }

  lemma NewSubHasNoOwner(r: Relay, s: State)
    requires Routed(r, s)
    ensures Count(Owner(|s.shared.subs|), s.threads) == 0
  {
    forall t | 0 <= t < |s.threads|
      ensures Weight(Owner(|s.shared.subs|), s.threads[t]) == 0
    {
      assert Sound(r, s.shared, s.threads[t]);
    }
    CountNone(Owner(|s.shared.subs|), s.threads);
  }

  lemma UnhurriedAt(r: Relay, s: State, t: nat, pc': Pc, s': State, i: nat)
    requires Step(r, s, t, pc', s') && Routed(r, s) && Unhurried(s) && Extends(s.shared, s'.shared)
    requires ClosesInTime(s.shared, s.threads[t], s'.shared, pc') && i < |s'.shared.subs|
    ensures Count(Owner(i), s'.threads) <= 1 && ClosedInTime(s', i)
  {
    CountsMove(Owner(i), r, s, t, pc', s');
    assert Weight(Owner(i), pc') <= Weight(Owner(i), s.threads[t]) + B(i == |s.shared.subs|);
    if i == |s.shared.subs| {
      NewSubHasNoOwner(r, s);
    } else {
      assert ClosedInTime(s, i) && Marked(s.shared, s.threads[t]) && Sound(r, s.shared, s.threads[t]);
    }
  }

  lemma UnhurriedKept(r: Relay, s: State, t: nat, pc': Pc, s': State)
    requires Step(r, s, t, pc', s') && Routed(r, s) && Unhurried(s) && Extends(s.shared, s'.shared)
    ensures Unhurried(s')
  {
    assert Marked(s.shared, s.threads[t]);
    MoveClosesInTime(r, s.shared, s.threads[t], s'.shared, pc');
    forall i | 0 <= i < |s'.shared.subs|
      ensures Count(Owner(i), s'.threads) <= 1 && ClosedInTime(s', i)
    {
      UnhurriedAt(r, s, t, pc', s', i);
    }
    forall u | 0 <= u < |s'.threads|
      ensures Marked(s'.shared, s'.threads[u])
    {
      assert u != t ==> Marked(s.shared, s.threads[u]);
    }
  }

  lemma OutsideIsUnhurried(r: Relay, s: State, e: Event, s': State)
    requires Outside(r, s, e, s') && Unhurried(s)
    ensures Unhurried(s')
  {
    forall i | 0 <= i < |s'.shared.subs|
      ensures Count(Owner(i), s'.threads) <= 1 && ClosedInTime(s', i)
    {
      if !e.DefaultPacket? {
        Counting.Start(By(Owner(i)), s.threads, s'.threads[|s.threads|]);
      }
      assert ClosedInTime(s, i);
    }
  }

  // Over every run.

  ghost predicate Inv(r: Relay, s: State) {
    Accounts(s) && LifeByCount(s) && Lazy(s) && Awake(s) && Routed(r, s) && NoLeak(s) && OneShot(s)
  }

  ghost predicate FullInv(r: Relay, s: State) {
    Inv(r, s) && Traced(r, s) && Unhurried(s)
  }

  lemma StepKeepsInv(r: Relay, s: State, t: nat, pc': Pc, s': State)
    requires Step(r, s, t, pc', s') && Inv(r, s)
    ensures Inv(r, s')
  {
    AccountsKept(r, s, t, pc', s');
    LazyKept(r, s, t, pc', s');
    RoutedKept(r, s, t, pc', s');
    NoLeakKept(r, s, t, pc', s');
    OneShotKept(r, s, t, pc', s');
  }

  /** A call that starts changes nothing yet. */
  lemma CallKeepsInv(r: Relay, s: State, pc: Pc, s': State)
    requires Inv(r, s) && s' == s.(threads := s.threads + [pc], inputs := s'.inputs) && Sound(r, s.shared, pc)
    requires AwakeAt(s.shared, pc)
    requires forall k :: k != Work ==> Weight(k, pc) == 0
    ensures Inv(r, s')
  {
    forall k | k != Work
      ensures Count(k, s'.threads) == Count(k, s.threads)
    {
      Counting.Start(By(k), s.threads, pc);
    }
  }

  lemma PacketKeepsInv(r: Relay, s: State, m: Message, s': State)
    requires Inv(r, s) && s' == s.(shared := s.shared.Record(m), inputs := s'.inputs) && m.Delivered? && Known(s.shared, m.sub, false)
    ensures Inv(r, s')
  {
    forall i | 0 <= i < |s.shared.subs| && s.shared.subs[i].dns
      ensures Tally(i, true, s'.shared.messages) == Tally(i, true, s.shared.messages)
      ensures Tally(i, false, s'.shared.messages) == Tally(i, false, s.shared.messages)
    {
      TallyWritten(i, true, s.shared.messages, [m]);
      TallyWritten(i, false, s.shared.messages, [m]);
    }
    forall t | 0 <= t < |s'.threads|
      ensures Sound(r, s'.shared, s'.threads[t])
    {
      assert Sound(r, s.shared, s.threads[t]);
    }
  }

  lemma OutsideKeepsInv(r: Relay, s: State, e: Event, s': State)
    requires Outside(r, s, e, s') && Inv(r, s)
    ensures Inv(r, s')
  {
    match e
    case CallSend(p, dest) => CallKeepsInv(r, s, SendStart(r, p, dest), s');
    case CallReceive => CallKeepsInv(r, s, ParentStart, s');
    case CallClose => CallKeepsInv(r, s, CloseStart, s');
    case Answer(t, p) =>
      assert Sound(r, s.shared, s.threads[t]);
      CallKeepsInv(r, s, AnswerStart(p, s.threads[t].sub), s');
    case DefaultPacket(t, p, source) =>
      assert Sound(r, s.shared, s.threads[t]);
      PacketKeepsInv(r, s, Delivered(s.threads[t].sub, p, source), s');
  }

  lemma NextKeepsInv(r: Relay, s: State, s': State)
    requires Next(r, s, s') && FullInv(r, s)
    ensures FullInv(r, s')
  {
    if t: nat, pc' :| Step(r, s, t, pc', s') {
      StepKeepsInv(r, s, t, pc', s');
      RoutedKept(r, s, t, pc', s');
      TracedKept(r, s, t, pc', s');
      UnhurriedKept(r, s, t, pc', s');
    } else {
      var e: Event :| Outside(r, s, e, s');
      OutsideKeepsInv(r, s, e, s');
      OutsideIsTraced(r, s, e, s');
      OutsideIsUnhurried(r, s, e, s');
    }
  }

  lemma {:induction false} RunKeepsInv(r: Relay, run: seq<State>)
    requires Run(r, run)
    ensures FullInv(r, run[|run| - 1])
  {
    if |run| == 1 {
    } else {
      var before := run[..|run| - 1];
      assert Run(r, before) by {
        forall i | 0 <= i < |before| - 1
          ensures Next(r, before[i], before[i + 1])
        {
          assert Next(r, run[i], run[i + 1]);
        }
      }
      RunKeepsInv(r, before);
      NextKeepsInv(r, run[|run| - 2], run[|run| - 1]);
    }
  }

  /** In every interleaving: the count is of what is active, closeChan is closed exactly once and
      exactly when the parent is closed, and the default relay is asked for one association at most. */
  lemma CountsAreRight(r: Relay, run: seq<State>)
    requires Run(r, run)
    ensures var s := run[|run| - 1];
            && 0 <= s.shared.activeCount == Count(Active, s.threads) + |s.shared.queued| && |s.shared.queued| <= 1
            && s.shared.closings == (if s.shared.isClosed then 1 else 0)
            && s.shared.defCalls <= 1
            && (s.shared.begun > 0 && s.shared.activeCount == 0 ==> s.shared.isClosed)
  {
    RunKeepsInv(r, run);
  }

  /** In every interleaving: a step that closes the parent without a call of Close leaves nothing active,
      no goroutine and no queued receiver. */
  lemma AutoCloseOnlyAtZero(r: Relay, run: seq<State>, t: nat, pc': Pc, s': State, u: nat)
    requires Run(r, run) && Step(r, run[|run| - 1], t, pc', s')
    requires !run[|run| - 1].shared.isClosed && s'.shared.isClosed && !run[|run| - 1].threads[t].CloseStart?
    requires u < |s'.threads|
    ensures s'.shared.activeCount == 0 && s'.shared.queued == [] && Weight(Active, s'.threads[u]) == 0
  {
    RunKeepsInv(r, run);
    var s := run[|run| - 1];
    CountsMove(Initializer, r, s, t, pc', s');
    MoveBalances(r, s.shared, s.threads[t], s'.shared, pc');
    StepKeepsInv(r, s, t, pc', s');
    CountNone(Active, s'.threads);
  }

  /** In every interleaving: once the parent is closed, a sender that is still open is in the hands of a
      goroutine that has to close it; so when every goroutine is done, every sender is closed. */
  lemma ClosedMeansClosed(r: Relay, run: seq<State>, i: nat)
    requires Run(r, run)
    requires var s := run[|run| - 1]; s.shared.isClosed && i < |s.shared.subs| && !s.shared.subs[i].closed
    ensures var s := run[|run| - 1]; exists t :: 0 <= t < |s.threads| && Weight(Closer(i), s.threads[t]) > 0
  {
    RunKeepsInv(r, run);
    var t := CountSome(Closer(i), run[|run| - 1].threads);
  }

  ghost predicate AllDone(s: State) {
    forall t :: 0 <= t < |s.threads| ==> s.threads[t].Done?
  }

  ghost predicate AllClosed(a: Shared) {
    forall i :: 0 <= i < |a.subs| ==> a.subs[i].closed
  }

  /** In every interleaving: when the parent is closed and every goroutine is done, every sender is
      closed. */
  lemma DoneMeansClosed(r: Relay, run: seq<State>)
    requires Run(r, run) && run[|run| - 1].shared.isClosed && AllDone(run[|run| - 1])
    ensures AllClosed(run[|run| - 1].shared)
  {
    RunKeepsInv(r, run);
    var s := run[|run| - 1];
    forall i | 0 <= i < |s.shared.subs|
      ensures s.shared.subs[i].closed
    {
      CountNone(Closer(i), s.threads);
    }
  }

  /** In every interleaving: while the parent is open no sender is closed early. The default one is open,
      and so is that of a query until it was answered, or its goroutine has ended it. */
  lemma NobodyClosesEarly(r: Relay, run: seq<State>, i: nat, t: nat)
    requires Run(r, run) && !run[|run| - 1].shared.isClosed
    requires i < |run[|run| - 1].shared.subs| && t < |run[|run| - 1].threads|
    ensures var s := run[|run| - 1]; var pc := s.threads[t];
            && (!s.shared.subs[i].dns ==> !s.shared.subs[i].closed)
            && ((pc.QueryCreated? || pc.QuerySending? || pc.Receiving? || pc.Removing?) && pc.sub == i ==>
                  !s.shared.subs[i].closed || s.shared.subs[i].handled)
  {
    RunKeepsInv(r, run);
    var s := run[|run| - 1];
    assert ClosedInTime(s, i);
    CountNone(Owner(i), s.threads);
  }

  /** In every interleaving: no two messages of a DNS sub-association go the same way, and each goes
      where it should. */
  lemma OneAnswerPerQuery(r: Relay, run: seq<State>, k: nat, l: nat)
    requires Run(r, run)
    requires var a := run[|run| - 1].shared; k < l < |a.messages|
    ensures var a := run[|run| - 1].shared; var m := a.messages[k];
            && m.sub < |a.subs|
            && (a.subs[m.sub].dns ==>
                  && (m.Sent? ==> m.dest == r.dnsRemoteResolver) && (m.Delivered? ==> m.source == r.dnsLocalResolver)
                  && !(a.messages[l].sub == m.sub && a.messages[l].Sent? == m.Sent?))
            && (!a.subs[m.sub].dns && m.Sent? ==> !SameAddrPort(m.dest, r.dnsLocalResolver))
  {
    RunKeepsInv(r, run);
    var a := run[|run| - 1].shared;
    var m := a.messages[k];
    assert RoutedAs(r, a, m);
    if a.subs[m.sub].dns && a.messages[l].sub == m.sub && a.messages[l].Sent? == m.Sent? {
      TallyOfTwo(m.sub, m.Sent?, a.messages, k, l);
    }
  }

  /** In every interleaving: every packet that was passed on was asked for, and went the right way. A query
      carries a packet that somebody sent to the local resolver, to the remote one; its answer carries a
      packet that came back over it, as from the local resolver. Everything else goes to where somebody
      sent it, which was not the local resolver, and comes as from where it came. */
  lemma PacketsGoWhereTheyShould(r: Relay, run: seq<State>, k: nat)
    requires Run(r, run) && k < |run[|run| - 1].shared.messages|
    ensures var s := run[|run| - 1]; var m := s.shared.messages[k];
            && m.sub < |s.shared.subs|
            && match m
               case Sent(i, p, dest) =>
                 if s.shared.subs[i].dns then dest == r.dnsRemoteResolver && Queried(r, s.inputs, p)
                 else Called(p, dest) in s.inputs && !IsLocal(r, dest)
               case Delivered(i, p, source) =>
                 if s.shared.subs[i].dns then source == r.dnsLocalResolver && Answered(i, p) in s.inputs
                 else Arrived(i, p, source) in s.inputs
  {
    RunKeepsInv(r, run);
    assert Explained(r, run[|run| - 1].shared, run[|run| - 1].inputs, run[|run| - 1].shared.messages[k]);
  }

  /** A call with the local resolver's address, IPv4-mapped or not, starts a query, and any other call goes
      to the default association with its own address. On a closed parent both end at once. */
  lemma CallsGoTheirWay(r: Relay, s: State, p: Packet, dest: Addr, s': State)
    requires Outside(r, s, CallSend(p, dest), s')
    ensures s'.shared == s.shared && |s'.threads| == |s.threads| + 1
    ensures s'.threads[|s.threads|] == if IsLocal(r, dest) then QueryStart(p) else DefaultStart(p, dest)
  {
    SameIsLocal(r, dest);
  }

  lemma ClosedRejects(r: Relay, s: State, t: nat, pc': Pc, s': State)
    requires Step(r, s, t, pc', s') && s.shared.isClosed
    ensures var pc := s.threads[t];
            pc.QueryStart? || pc.DefaultStart? || pc.DefaultWoken? || pc.ParentStart? || pc.CloseStart? ==>
              pc' == Done(ErrClosed) && s'.shared == s.shared
  {}

  /** What a call reports, once it has left its first critical section: an error exactly if a relay failed or
      the parent was closed meanwhile. A query that was sent goes on to wait for its answer. */
  lemma FailuresAreReported(r: Relay, s: State, t: nat, pc': Pc, s': State)
    requires Step(r, s, t, pc', s')
    ensures var pc := s.threads[t];
            && (pc.QueryCreating? ==> if |s'.shared.subs| == |s.shared.subs| then pc' == Releasing(Failed) else pc'.QueryCreated?)
            && (pc.QueryCreated? ==> if s.shared.isClosed then pc' == Closing(pc.sub, ErrClosed) else pc'.QuerySending?)
            && (pc.QuerySending? ==> pc' == Receiving(pc.sub) || pc' == Removing(pc.sub, Failed))
            && (pc.Receiving? ==> pc' == Removing(pc.sub, Ok))
            && (pc.Removing? || pc.Closing? ==> pc' == (if pc.Removing? then Closing(pc.sub, pc.outcome) else Releasing(pc.outcome)))
            && (pc.Releasing? ==> pc' == Done(pc.outcome))
            && (pc.DefaultCreated? ==> pc' == if s.shared.isClosed then Done(ErrClosed)
                                              else if pc.made.None? then Done(Failed)
                                              else DefaultSending(pc.packet, pc.dest, pc.made.value))
  {}

  /** Goroutine t can take a step. */
  ghost predicate CanMove(r: Relay, s: State, t: nat) {
    exists pc', s' :: Step(r, s, t, pc', s')
  }

  /** The ways to wait: for the parent's receiver, for the default association, or for the close. */
  ghost predicate Waits(s: State, pc: Pc) {
    || (pc.AnswerWaiting? && !s.shared.handlerReady && !s.shared.isClosed)
    || (pc.ParentSelecting? && s.shared.queued == [] && !s.shared.isClosed)
    || (pc.ParentWaiting? && !s.shared.isClosed)
    || (pc.DefaultAsleep? && !s.shared.isClosed && Count(Initializer, s.threads) > 0)
  }

  lemma MoveIsPossible(r: Relay, s: State, t: nat, b: Shared, pc': Pc)
    requires t < |s.threads| && Move(r, s.shared, s.threads[t], b, pc')
    ensures CanMove(r, s, t)
  {
    var threads := if b.broadcasts == s.shared.broadcasts then s.threads else Wake(s.threads);
    assert Step(r, s, t, pc', State(b, threads[t := pc'], s.inputs));
  }

  /** What a goroutine at pc could do next, if it need not wait. */
  lemma SomeMove(r: Relay, a: Shared, pc: Pc) returns (b: Shared, pc': Pc)
    requires Sound(r, a, pc) && !pc.Done? && !pc.DefaultAsleep?
    requires pc.AnswerWaiting? ==> a.handlerReady || a.isClosed
    requires pc.ParentSelecting? ==> a.queued != [] || a.isClosed
    requires pc.ParentWaiting? ==> a.isClosed
    ensures Move(r, a, pc, b, pc')
  {
    b := a;
    match pc
    case QueryStart(p) =>
      b, pc' := if a.isClosed then a else a.Begin(), if a.isClosed then Done(ErrClosed) else QueryCreating(p);
    case QueryCreating(p) => pc' := Releasing(Failed);
    case QueryCreated(p, i) =>
      b := if a.isClosed then a else a.(dnsSenders := a.dnsSenders + {i});
      pc' := if a.isClosed then Closing(i, ErrClosed) else QuerySending(p, i);
    case QuerySending(p, i) => b, pc' := a.Record(Sent(i, p, r.dnsRemoteResolver)), Receiving(i);
    case Receiving(i) => pc' := Removing(i, Ok);
    case Removing(i, o) => b, pc' := a.(dnsSenders := a.dnsSenders - {i}), Closing(i, o);
    case Closing(i, o) => b, pc' := a.CloseSub(i), Releasing(o);
    case Releasing(o) => b, pc' := a.Release(), Done(o);
    case AnswerStart(p, i) =>
      b := if a.subs[i].handled then a else a.(subs := a.subs[i := a.subs[i].(handled := true)]);
      pc' := if a.subs[i].handled then Done(Ok) else AnswerWaiting(p, i);
    case AnswerWaiting(p, i) =>
      b := if a.handlerReady then a.Record(Delivered(i, p, r.dnsLocalResolver)) else a;
      pc' := if a.handlerReady then AnswerClosing(i) else Done(ErrClosed);
    case AnswerClosing(i) => b, pc' := a.CloseSub(i), Done(Ok);
    case DefaultStart(p, dest) => b, pc' := SomeUse(a, p, dest);
    case DefaultWoken(p, dest) => b, pc' := SomeUse(a, p, dest);
    case DefaultCreating(p, dest) => b, pc' := a.(defCalls := a.defCalls + 1), DefaultCreated(p, dest, None);
    case DefaultCreated(p, dest, made) => b, pc' := SomeEnd(a, p, dest, made);
    case DefaultSending(p, dest, i) => b, pc' := a.Record(Sent(i, p, dest)), Done(Ok);
    case ParentStart =>
      b := if a.isClosed || a.handlerReady then a else a.(handlerReady := true);
      pc' := if a.isClosed then Done(ErrClosed) else if a.handlerReady then Done(Failed) else ParentSelecting;
    case ParentSelecting =>
      b := if a.queued != [] then a.(queued := a.queued[1..]) else a;
      pc' := if a.queued != [] then ParentReceiving(a.queued[0]) else Done(Ok);
    case ParentReceiving(i) => pc' := ParentReleasing;
    case ParentReleasing => b, pc' := a.Release(), ParentWaiting;
    case ParentWaiting => pc' := Done(Ok);
    case CloseStart =>
      b, pc' := if a.isClosed then a else a.CloseLocked(), if a.isClosed then Done(ErrClosed) else Done(Ok);
  }

  lemma SomeUse(a: Shared, p: Packet, dest: Addr) returns (b: Shared, pc': Pc)
    ensures UseDefault(a, p, dest, b, pc')
  {
    b, pc' := a, Done(ErrClosed);
    if !a.isClosed {
      match a.defState
      case Initializing => pc' := DefaultAsleep(p, dest);
      case Initialized(sender) => pc' := if sender.Some? then DefaultSending(p, dest, sender.value) else Done(Failed);
      case Idle => b, pc' := a.(defState := Initializing), DefaultCreating(p, dest);
    }
  }

  lemma SomeEnd(a: Shared, p: Packet, dest: Addr, made: Option<nat>) returns (b: Shared, pc': Pc)
    ensures DefaultMove(a, DefaultCreated(p, dest, made), b, pc')
  {
    if a.isClosed {
      var dropped := if made.Some? then a.CloseSub(made.value) else a;
      b, pc' := dropped.(defState := Initialized(None)).Broadcast(), Done(ErrClosed);
    } else if made.None? {
      b, pc' := a.(defState := Initialized(made)).Broadcast(), Done(Failed);
    } else {
      b := a.(defState := Initialized(made)).Broadcast().Begin().(queued := a.queued + [made.value]);
      pc' := DefaultSending(p, dest, made.value);
    }
  }

  /** In every interleaving a goroutine that is not done can move, or waits for something that the
      open parent may still bring. After the close nobody waits, and nobody waits for the default
      association unless a goroutine that can move is creating it. */
  lemma OnlyWaitersWait(r: Relay, run: seq<State>, t: nat)
    requires Run(r, run) && t < |run[|run| - 1].threads| && !run[|run| - 1].threads[t].Done?
    ensures var s := run[|run| - 1]; CanMove(r, s, t) || Waits(s, s.threads[t])
    ensures var s := run[|run| - 1]; s.shared.isClosed ==> CanMove(r, s, t)
    ensures var s := run[|run| - 1]; s.threads[t].DefaultAsleep? ==>
              exists u: nat :: u < |s.threads| && Weight(Initializer, s.threads[u]) == 1 && CanMove(r, s, u)
  {
    RunKeepsInv(r, run);
    var s := run[|run| - 1];
    var pc := s.threads[t];
    assert AwakeAt(s.shared, pc) && Sound(r, s.shared, pc);
    if pc.DefaultAsleep? {
      var u := CountSome(Initializer, s.threads);
      assert Sound(r, s.shared, s.threads[u]);
      var b, pc' := SomeMove(r, s.shared, s.threads[u]);
      MoveIsPossible(r, s, u, b, pc');
    } else if !Waits(s, pc) {
      var b, pc' := SomeMove(r, s.shared, pc);
      MoveIsPossible(r, s, t, b, pc');
    }
  }

  lemma QueryIsProgress(r: Relay, a: Shared, pc: Pc, b: Shared, pc': Pc)
    requires QueryMove(r, a, pc, b, pc')
    ensures StepsLeft(pc') < StepsLeft(pc)
  {}

  lemma DefaultIsProgress(a: Shared, pc: Pc, b: Shared, pc': Pc)
    requires DefaultMove(a, pc, b, pc') && AwakeAt(a, pc)
    ensures StepsLeft(pc') < StepsLeft(pc)
  {}

  lemma OtherIsProgress(r: Relay, a: Shared, pc: Pc, b: Shared, pc': Pc)
    requires AnswerMove(r, a, pc, b, pc') || ParentMove(a, pc, b, pc')
    ensures StepsLeft(pc') < StepsLeft(pc)
  {}

  lemma MoveIsProgress(r: Relay, a: Shared, pc: Pc, b: Shared, pc': Pc)
    requires Move(r, a, pc, b, pc') && AwakeAt(a, pc)
    ensures StepsLeft(pc') < StepsLeft(pc)
  {
    if QueryMove(r, a, pc, b, pc') {
      QueryIsProgress(r, a, pc, b, pc');
    } else if DefaultMove(a, pc, b, pc') {
      DefaultIsProgress(a, pc, b, pc');
    } else {
      OtherIsProgress(r, a, pc, b, pc');
    }
  }

  /** Every step leaves less to do, so the calls made so far come to an end in every interleaving. */
  lemma EveryStepIsProgress(r: Relay, run: seq<State>, t: nat, pc': Pc, s': State)
    requires Run(r, run) && Step(r, run[|run| - 1], t, pc', s')
    ensures Count(Work, s'.threads) < Count(Work, run[|run| - 1].threads)
  {
    RunKeepsInv(r, run);
    var s := run[|run| - 1];
    assert AwakeAt(s.shared, s.threads[t]);
    MoveIsProgress(r, s.shared, s.threads[t], s'.shared, pc');
    CountsMove(Work, r, s, t, pc', s');
  }

  // Runs in which everything goes well.

  /** A run can go on with a step of goroutine t. */
  lemma GoOn(r: Relay, run: seq<State>, t: nat, b: Shared, pc': Pc) returns (more: seq<State>)
    requires Run(r, run) && t < |run[|run| - 1].threads|
    requires var s := run[|run| - 1]; Move(r, s.shared, s.threads[t], b, pc') && b.broadcasts == s.shared.broadcasts
    ensures var s := run[|run| - 1];
            Run(r, more) && |more| > 0 && more[|more| - 1] == State(b, s.threads[t := pc'], s.inputs)
  {
    var s := run[|run| - 1];
    var s' := State(b, s.threads[t := pc'], s.inputs);
    assert Step(r, s, t, pc', s');
    more := Longer(r, run, s');
  }

  lemma GoOnOutside(r: Relay, run: seq<State>, e: Event, s': State) returns (more: seq<State>)
    requires Run(r, run) && Outside(r, run[|run| - 1], e, s')
    ensures Run(r, more) && |more| > 0 && more[|more| - 1] == s'
  {
    more := Longer(r, run, s');
  }

  lemma Longer(r: Relay, run: seq<State>, s': State) returns (more: seq<State>)
    requires Run(r, run) && Next(r, run[|run| - 1], s')
    ensures Run(r, more) && |more| == |run| + 1 && more[|run|] == s'
  {
    more := run + [s'];
    forall i | 0 <= i < |more| - 1
      ensures Next(r, more[i], more[i + 1])
    {
      assert i < |run| - 1 ==> more[i] == run[i] && more[i + 1] == run[i + 1];
      assert more[|run| - 1] == run[|run| - 1];
    }
  }

  /** A parent whose receiver waits, and a call. */
  lemma Calling(r: Relay, p: Packet, dest: Addr) returns (run: seq<State>)
    ensures Run(r, run) && |run| > 0
    ensures run[|run| - 1] == State(Init().shared.(handlerReady := true), [ParentSelecting, SendStart(r, p, dest)],
                                    [Called(p, dest)])
  {
    var a := Init().shared;
    run := [Init()];
    run := GoOnOutside(r, run, CallReceive, State(a, [ParentStart], []));
    run := GoOn(r, run, 0, a.(handlerReady := true), ParentSelecting);
    assert [ParentStart][0 := ParentSelecting] == [ParentSelecting];
    run := GoOnOutside(r, run, CallSend(p, dest), State(a.(handlerReady := true), [ParentSelecting, SendStart(r, p, dest)],
                                                        [Called(p, dest)]));
  }

  /** A query comes through: it is sent to the remote resolver, and its answer is delivered as from the
      local one. */
  lemma QueryComesThrough(r: Relay, p: Packet, dest: Addr, answer: Packet)
    requires IsLocal(r, dest)
    ensures exists run: seq<State> ::
      Run(r, run) && run[|run| - 1].shared.messages
                     == [Sent(0, p, r.dnsRemoteResolver), Delivered(0, answer, r.dnsLocalResolver)]
  {
    SameIsLocal(r, dest);
    var run := Calling(r, p, dest);
    var a := run[|run| - 1].shared;
    var b := a.Begin();
    run := GoOn(r, run, 1, b, QueryCreating(p));
    var c := b.Create(true);
    run := GoOn(r, run, 1, c, QueryCreated(p, 0));
    var d := c.(dnsSenders := {0});
    assert c.dnsSenders + {0} == {0};
    run := GoOn(r, run, 1, d, QuerySending(p, 0));
    var e := d.Record(Sent(0, p, r.dnsRemoteResolver));
    run := GoOn(r, run, 1, e, Receiving(0));
    var s := run[|run| - 1];
    var s' := s.(threads := s.threads + [AnswerStart(answer, 0)], inputs := s.inputs + [Answered(0, answer)]);
    run := GoOnOutside(r, run, Answer(1, answer), s');
    var f := e.(subs := e.subs[0 := e.subs[0].(handled := true)]);
    run := GoOn(r, run, 2, f, AnswerWaiting(answer, 0));
    run := GoOn(r, run, 2, f.Record(Delivered(0, answer, r.dnsLocalResolver)), AnswerClosing(0));
    assert run[|run| - 1].shared.messages == [Sent(0, p, r.dnsRemoteResolver), Delivered(0, answer, r.dnsLocalResolver)];
  }

  /** The default association is there, and the packet is about to be sent over it. */
  lemma DefaultIsReady(r: Relay, p: Packet, dest: Addr) returns (run: seq<State>)
    requires !IsLocal(r, dest)
    ensures Run(r, run) && |run| > 0
    ensures var s := run[|run| - 1];
            && s.threads == [ParentSelecting, DefaultSending(p, dest, 0)] && s.inputs == [Called(p, dest)]
            && s.shared.queued == [0] && s.shared.messages == []
  {
    SameIsLocal(r, dest);
    run := Calling(r, p, dest);
    var a := run[|run| - 1].shared;
    var b := a.(defState := Initializing);
    run := GoOn(r, run, 1, b, DefaultCreating(p, dest));
    var c := b.(defCalls := 1).Create(false);
    run := GoOn(r, run, 1, c, DefaultCreated(p, dest, Some(0)));
    var s := run[|run| - 1];
    var d := c.(defState := Initialized(Some(0))).Broadcast().Begin().(queued := [0]);
    var s' := State(d, [ParentSelecting, DefaultSending(p, dest, 0)], s.inputs);
    assert c.queued + [0] == [0];
    assert Wake(s.threads)[1 := DefaultSending(p, dest, 0)] == s'.threads;
    assert Step(r, s, 1, DefaultSending(p, dest, 0), s');
    run := Longer(r, run, s');
  }

  /** So does any other packet: it is sent where it should go, and what comes back is delivered as from where
      it came. */
  lemma OtherPacketsComeThrough(r: Relay, p: Packet, dest: Addr, back: Packet, source: Addr)
    requires !IsLocal(r, dest)
    ensures exists run: seq<State> ::
      Run(r, run) && run[|run| - 1].shared.messages == [Sent(0, p, dest), Delivered(0, back, source)]
  {
    var run := DefaultIsReady(r, p, dest);
    var d := run[|run| - 1].shared;
    var e := d.Record(Sent(0, p, dest));
    run := GoOn(r, run, 1, e, Done(Ok));
    assert [0][1..] == [];
    run := GoOn(r, run, 0, e.(queued := []), ParentReceiving(0));
    var s := run[|run| - 1];
    var s' := s.(shared := s.shared.Record(Delivered(0, back, source)), inputs := s.inputs + [Arrived(0, back, source)]);
    run := GoOnOutside(r, run, DefaultPacket(0, back, source), s');
    assert run[|run| - 1].shared.messages == [Sent(0, p, dest), Delivered(0, back, source)];
  }
}
