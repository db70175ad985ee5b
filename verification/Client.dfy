/**
 The SDK client: connection state, back-off, subscriptions and the two failed-publish slots,
 one API call at a time. What the network and the clock answer are parameters of each call.
 The variant is the one with the embedded MQTT library.
 */
module Client {

  datatype Option<+T> = None | Some(value: T)

  datatype Phase = Uninitialized | Initialized | Connected | Disconnected

  datatype Topic = CommandTopic | ConfigTopic
  datatype AckTopic = CommandAckTopic | ConfigAckTopic
  type Handler = nat
  type Payload = string

  const ZSUCCESS := 0
  const ZFAILURE := -1
  const ZCONNECTION_ERROR := -2
  const NOT_INITIALIZED := -2
  const TIME_CHANGED := -11
  const MIN_RETRY_INTERVAL := 2
  const MAX_RETRY_INTERVAL := 1800
  const EVENT_LIFETIME := 300

  // ---- answers of the outside world ----

  /** A library call's return code and whether its connection still stands afterwards. */
  datatype Answer = Answer(rc: int, connected: bool)

  /** Opening the transport, then the MQTT handshake. */
  datatype ConnectAnswer = ConnectAnswer(networkRc: int, mqttRc: int)

  /** Clock readings and answers in the order one reconnect asks for them. */
  datatype ReconnectAnswer = ReconnectAnswer(
    now0: nat, now1: nat, now2: nat, nowEvent: nat, connect: ConnectAnswer,
    command: Answer, config: Answer, ack: Answer, event: Answer,
    ackPrints: bool, eventPrints: bool)

  // ---- abstract state ----

  datatype StoredAck = StoredAck(topic: AckTopic, payload: Payload)
  datatype StoredEvent = StoredEvent(time: nat, payload: Payload)

  /** session is the set of topics subscribed since the last successful (clean) connect. */
  datatype State = State(
    phase: Phase, startTime: nat, retryCount: nat, interval: int,
    commandHandler: Option<Handler>, configHandler: Option<Handler>,
    retryAck: bool, failedAck: Option<StoredAck>,
    retryEvent: bool, failedEvent: Option<StoredEvent>,
    yieldTime: nat, session: set<Topic>)

  const START := State(Initialized, 0, 0, MIN_RETRY_INTERVAL, None, None, false, None, false, None, 0, {})

  /** What happens to the contents of the slots. */
  datatype Effect =
    | AckStored(a: StoredAck) | AckReplaced(a: StoredAck) | AckResent(a: StoredAck)
    | EventStored(e: StoredEvent) | EventReplaced(e: StoredEvent)
    | EventResent(e: StoredEvent, now: nat) | EventExpired(e: StoredEvent, now: nat)

  datatype Outcome = Outcome(state: State, rc: int, effects: seq<Effect>)

  /** getRetryInterval: doubles first and caps afterwards. */
  function NextInterval(delay: int): int
  {
    if delay <= 0 then MIN_RETRY_INTERVAL
    else if delay < MAX_RETRY_INTERVAL then delay * 2
    else MAX_RETRY_INTERVAL
  }

  /** Unsigned 64-bit difference: a clock that went back reads as a very long wait. */
  function Elapsed(now: nat, start: nat): (d: nat)
    ensures now >= start && now < 0x1_0000_0000_0000_0000 ==> d == now - start
  {
    (now - start) % 0x1_0000_0000_0000_0000
  }

  function Connect(s: State, c: ConnectAnswer): Outcome
  {
    if s.phase == Uninitialized then Outcome(s, NOT_INITIALIZED, [])
    else if s.phase == Connected then Outcome(s, ZSUCCESS, [])
    else if c.networkRc != ZSUCCESS then
      Outcome(if c.networkRc == TIME_CHANGED then s.(phase := Disconnected, startTime := 0) else s, ZFAILURE, [])
    else if c.mqttRc == 0 then Outcome(s.(phase := Connected, session := {}), 0, [])
    else Outcome(s, c.mqttRc, [])
  }

  function Subscribe(s: State, t: Topic, handler: Option<Handler>, a: Answer): Outcome
  {
    if s.phase == Uninitialized then Outcome(s, NOT_INITIALIZED, [])
    else if handler == None then Outcome(s, ZFAILURE, [])
    else
      var s1 := if t == CommandTopic then s.(commandHandler := handler) else s.(configHandler := handler);
      if s1.phase != Connected then Outcome(s1, ZFAILURE, [])
      else if a.rc == ZSUCCESS then Outcome(s1.(session := s1.session + {t}), ZSUCCESS, [])
      else Outcome(s1.(phase := Disconnected), a.rc, [])
  }

  /** The subscriptions repeated after a reconnect; rc tells whether to go on. */
  function Resubscribe(s: State, n: ReconnectAnswer): (State, bool)
  {
    var o1 := if s.commandHandler.Some? then Subscribe(s, CommandTopic, s.commandHandler, n.command) else Outcome(s, ZSUCCESS, []);
    if o1.rc != ZSUCCESS then (o1.state, false)
    else
      var s1 := o1.state;
      var o2 := if s1.configHandler.Some? then Subscribe(s1, ConfigTopic, s1.configHandler, n.config) else Outcome(s1, ZSUCCESS, []);
      (o2.state, o2.rc == ZSUCCESS)
  }

  /** Resend the stored acknowledgement; false when it cannot even be serialized. */
  function ResendAck(s: State, n: ReconnectAnswer): (State, bool, seq<Effect>)
    requires s.retryAck ==> s.failedAck.Some?
  {
    if !s.retryAck then (s, true, [])
    else if !n.ackPrints then (s, false, [])
    else if n.ack.rc == ZSUCCESS then
      (s.(retryAck := false, failedAck := None), true, [AckResent(s.failedAck.value)])
    else (s, true, [])
  }

  function ResendEvent(s: State, n: ReconnectAnswer): (State, bool, seq<Effect>)
    requires s.retryEvent ==> s.failedEvent.Some?
  {
    if !s.retryEvent then (s, true, [])
    else if s.failedEvent.value.time + EVENT_LIFETIME < n.nowEvent then
      (s.(retryEvent := false, failedEvent := None), true, [EventExpired(s.failedEvent.value, n.nowEvent)])
    else if !n.eventPrints then (s, false, [])
    else if n.event.rc == ZSUCCESS then
      (s.(retryEvent := false, failedEvent := None), true, [EventResent(s.failedEvent.value, n.nowEvent)])
    else (s, true, [])
  }

  /** The retry flags say exactly whether a payload is stored. */
  predicate SlotsAgree(s: State)
  {
    (s.retryAck <==> s.failedAck.Some?) && (s.retryEvent <==> s.failedEvent.Some?)
  }

  /** What follows a successful connect inside zclient_reconnect. */
  function AfterReconnect(s: State, n: ReconnectAnswer): Outcome
    requires SlotsAgree(s)
  {
    var (s1, subscribed) := Resubscribe(s, n);
    if !subscribed then Outcome(s1, ZFAILURE, [])
    else
      var (s2, ackDone, e2) := ResendAck(s1, n);
      if !ackDone then Outcome(s2, ZFAILURE, e2)
      else
        var (s3, eventDone, e3) := ResendEvent(s2, n);
        Outcome(s3, if eventDone then ZSUCCESS else ZFAILURE, e2 + e3)
  }

  /** One connection attempt; the caller has set the phase to Initialized. */
  function Attempt(s: State, n: ReconnectAnswer): Outcome
    requires SlotsAgree(s)
  {
    var c := Connect(s, n.connect);
    if c.rc == ZSUCCESS then
      AfterReconnect(c.state.(retryCount := 0, startTime := 0, interval := MIN_RETRY_INTERVAL), n)
    else
      var s1 := c.state.(startTime := n.now2, interval := NextInterval(c.state.interval), retryCount := c.state.retryCount + 1);
      Outcome(s1, if s1.phase == Initialized then ZCONNECTION_ERROR else ZFAILURE, [])
  }

  function Reconnect(s: State, n: ReconnectAnswer): Outcome
    requires SlotsAgree(s)
  {
    if s.phase == Uninitialized then Outcome(s, NOT_INITIALIZED, [])
    else if s.phase == Connected then Outcome(s, ZSUCCESS, [])
    else
      var s0 := if s.startTime == 0 then s.(startTime := n.now0) else s;
      if Elapsed(n.now1, s0.startTime) > s0.interval then Attempt(s0.(phase := Initialized), n)
      else Outcome(s0, ZFAILURE, [])
  }

  function Publish(s: State, a: Answer): Outcome
  {
    if s.phase == Uninitialized then Outcome(s, NOT_INITIALIZED, [])
    else if s.phase != Connected then Outcome(s, ZFAILURE, [])
    else if a.rc != ZSUCCESS && !a.connected then Outcome(s.(phase := Disconnected), a.rc, [])
    else Outcome(s, a.rc, [])
  }

  /** Command, OTA and configuration acknowledgements; no payload when it cannot be generated. */
  function PublishAck(s: State, t: AckTopic, payload: Option<Payload>, a: Answer): Outcome
  {
    if s.phase == Uninitialized then Outcome(s, NOT_INITIALIZED, [])
    else if payload == None then Outcome(s, ZFAILURE, [])
    else if a.rc != ZSUCCESS && !a.connected then
      var ack := StoredAck(t, payload.value);
      Outcome(s.(phase := Disconnected, failedAck := Some(ack), retryAck := true), a.rc,
              (if s.failedAck.Some? then [AckReplaced(s.failedAck.value)] else []) + [AckStored(ack)])
    else Outcome(s, a.rc, [])
  }

  /** An event is stored after every failed publish, lost connection or not. */
  function DispatchEvent(s: State, payload: Option<Payload>, now: nat, a: Answer): Outcome
  {
    if s.phase == Uninitialized then Outcome(s, NOT_INITIALIZED, [])
    else if s.phase != Connected then Outcome(s, ZFAILURE, [])
    else if payload == None then Outcome(s, ZFAILURE, [])
    else if a.rc == ZSUCCESS then Outcome(s, a.rc, [])
    else
      var ev := StoredEvent(now, payload.value);
      var s1 := if a.connected then s else s.(phase := Disconnected);
      Outcome(s1.(failedEvent := Some(ev), retryEvent := true), a.rc,
              (if s.failedEvent.Some? then [EventReplaced(s.failedEvent.value)] else []) + [EventStored(ev)])
  }

  const YIELD_INTERVAL := 1

  function Yield(s: State, now0: nat, now1: nat, timeout: int, a: Answer): Outcome
  {
    if s.phase == Uninitialized then Outcome(s, NOT_INITIALIZED, [])
    else if Elapsed(now0, s.yieldTime) < YIELD_INTERVAL then Outcome(s, 2, [])
    else
      var s1 := s.(yieldTime := now1);
      if timeout <= 0 then Outcome(s1, ZFAILURE, [])
      else if a.rc == ZFAILURE && !a.connected then Outcome(s1.(phase := Disconnected), ZFAILURE, [])
      else Outcome(s1, a.rc, [])
  }

  function Disconnect(s: State, rc: int): Outcome
  {
    Outcome(s.(phase := Disconnected), if s.phase == Connected then rc else ZSUCCESS, [])
  }

  datatype Op =
    | OpConnect(c: ConnectAnswer)
    | OpReconnect(n: ReconnectAnswer)
    | OpSubscribe(t: Topic, handler: Option<Handler>, a: Answer)
    | OpPublish(a: Answer)
    | OpAck(ackTopic: AckTopic, payload: Option<Payload>, a: Answer)
    | OpEvent(payload: Option<Payload>, now: nat, a: Answer)
    | OpYield(now0: nat, now1: nat, timeout: int, a: Answer)
    | OpDisconnect(rc: int)

  lemma ResubscribeSlots(s: State, n: ReconnectAnswer)
    requires SlotsAgree(s)
    ensures var t := Resubscribe(s, n).0;
      SlotsAgree(t) && t.failedAck == s.failedAck && t.failedEvent == s.failedEvent && t.interval == s.interval && t.retryCount == s.retryCount
  {
  }

  /** Resending touches nothing but the slots. */
  lemma ResendKeeps(s: State, n: ReconnectAnswer)
    requires SlotsAgree(s)
    ensures var t := ResendAck(s, n).0;
      SlotsAgree(t) && t == s.(retryAck := t.retryAck, failedAck := t.failedAck)
    ensures var t := ResendEvent(s, n).0;
      SlotsAgree(t) && t == s.(retryEvent := t.retryEvent, failedEvent := t.failedEvent)
  {
  }

  lemma AfterReconnectSlots(s: State, n: ReconnectAnswer)
    requires SlotsAgree(s)
    ensures SlotsAgree(AfterReconnect(s, n).state)
  {
    hide Resubscribe, ResendAck, ResendEvent;
    ResubscribeSlots(s, n);
    var s1 := Resubscribe(s, n).0;
    ResendKeeps(s1, n);
    ResendKeeps(ResendAck(s1, n).0, n);
  }

  lemma ReconnectSlots(s: State, n: ReconnectAnswer)
    requires SlotsAgree(s)
    ensures SlotsAgree(Reconnect(s, n).state)
  {
    hide AfterReconnect;
    var s0 := if s.startTime == 0 then s.(startTime := n.now0) else s;
    var c := Connect(s0.(phase := Initialized), n.connect);
    var s1 := c.state.(retryCount := 0, startTime := 0, interval := MIN_RETRY_INTERVAL);
    assert SlotsAgree(s1);
    AfterReconnectSlots(s1, n);
  }

  function Step(s: State, op: Op): (o: Outcome)
    requires SlotsAgree(s)
  {
    match op
    case OpConnect(c) => Connect(s, c)
    case OpReconnect(n) => Reconnect(s, n)
    case OpSubscribe(t, h, a) => Subscribe(s, t, h, a)
    case OpPublish(a) => Publish(s, a)
    case OpAck(t, p, a) => PublishAck(s, t, p, a)
    case OpEvent(p, now, a) => DispatchEvent(s, p, now, a)
    case OpYield(now0, now1, timeout, a) => Yield(s, now0, now1, timeout, a)
    case OpDisconnect(rc) => Disconnect(s, rc)
  }

  /** A connect succeeds exactly when it leaves the client connected, and changes neither handlers nor slots. */
  lemma ConnectShape(s: State, c: ConnectAnswer)
    requires s.phase == Initialized || s.phase == Disconnected
    ensures var o := Connect(s, c);
      && (o.rc == ZSUCCESS <==> o.state.phase == Connected)
      && o.state.phase != Uninitialized
      && o.state == s.(phase := o.state.phase, startTime := o.state.startTime, session := o.state.session)
  {
  }

  /** In every call, the retry flags keep saying whether a payload is stored. */
  lemma StepSlots(s: State, op: Op)
    requires SlotsAgree(s)
    ensures SlotsAgree(Step(s, op).state)
  {
    hide Reconnect;
    if op.OpReconnect? { ReconnectSlots(s, op.n); }
  }

  /** The state after a run from a freshly initialized client, and all effects in order. */
  function Run(ops: seq<Op>): (r: (State, seq<Effect>))
    ensures SlotsAgree(r.0)
  {
    if ops == [] then (START, [])
    else
      var (s, es) := Run(ops[..|ops| - 1]);
      var o := Step(s, ops[|ops| - 1]);
      StepSlots(s, ops[|ops| - 1]);
      (o.state, es + o.effects)
  }

  // ---- subscriptions ----

  /** While connected, the topic of every registered handler is subscribed on this session. */
  predicate Subscribed(s: State)
  {
    s.phase == Connected ==>
      && (s.commandHandler.Some? ==> CommandTopic in s.session)
      && (s.configHandler.Some? ==> ConfigTopic in s.session)
  }

  predicate NoHandler(s: State)
  {
    s.commandHandler == None && s.configHandler == None
  }

  /** The application calls zclient_connect itself only while no handler is registered. */
  predicate Disciplined(ops: seq<Op>)
  {
    forall i :: 0 <= i < |ops| && ops[i].OpConnect? ==> NoHandler(Run(ops[..i]).0)
  }

  /** Going on after a connect means that every handler's topic is on the new session. */
  lemma ResubscribeCovers(s: State, n: ReconnectAnswer)
    requires s.phase == Connected
    ensures Subscribed(Resubscribe(s, n).0)
  {
  }

  lemma AfterReconnectSubscribed(s: State, n: ReconnectAnswer)
    requires SlotsAgree(s) && s.phase == Connected
    ensures Subscribed(AfterReconnect(s, n).state)
  {
    hide Resubscribe, ResendAck, ResendEvent;
    ResubscribeCovers(s, n);
    ResubscribeSlots(s, n);
    var s1 := Resubscribe(s, n).0;
    ResendKeeps(s1, n);
    ResendKeeps(ResendAck(s1, n).0, n);
  }

  lemma ReconnectSubscribed(s: State, n: ReconnectAnswer)
    requires SlotsAgree(s) && Subscribed(s)
    ensures Subscribed(Reconnect(s, n).state)
  {
    hide AfterReconnect;
    var s0 := if s.startTime == 0 then s.(startTime := n.now0) else s;
    var c := Connect(s0.(phase := Initialized), n.connect);
    var s1 := c.state.(retryCount := 0, startTime := 0, interval := MIN_RETRY_INTERVAL);
    assert SlotsAgree(s1);
    if c.rc == ZSUCCESS {
      AfterReconnectSubscribed(s1, n);
    }
  }

  /** A direct connect that opens a new session while a handler is registered. */
  predicate BareConnect(s: State, op: Op)
  {
    && op.OpConnect? && op.c.networkRc == ZSUCCESS && op.c.mqttRc == 0
    && (s.phase == Initialized || s.phase == Disconnected) && !NoHandler(s)
  }

  /** A call keeps the topics subscribed exactly when it is not such a connect. */
  lemma StepSubscribed(s: State, op: Op)
    requires SlotsAgree(s) && Subscribed(s)
    ensures Subscribed(Step(s, op).state) <==> !BareConnect(s, op)
  {
    hide Reconnect;
    if op.OpReconnect? { ReconnectSubscribed(s, op.n); }
  }

  /**
   Over every run, after each call the topics of all registered handlers are subscribed while
   connected, if and only if no direct connect opened a session while a handler was registered.
   */
  lemma {:induction false} RunSubscribedExact(ops: seq<Op>)
    ensures (forall k :: 0 <= k <= |ops| ==> Subscribed(Run(ops[..k]).0))
       <==> (forall k :: 0 <= k < |ops| ==> !BareConnect(Run(ops[..k]).0, ops[k]))
  {
    hide Subscribed, BareConnect, Run;
    if ops == [] {
      assert ops[..0] == [];
      StartSubscribed();
    } else {
      var n := |ops| - 1;
      var pre := ops[..n];
      RunSubscribedExact(pre);
      assert forall k :: 0 <= k <= n ==> pre[..k] == ops[..k];
      assert ops[..|ops|] == ops;
      if Subscribed(Run(pre).0) { LastSubscribed(ops); }
    }
  }

  lemma StartSubscribed()
    ensures Subscribed(Run([]).0)
  {
  }

  lemma LastSubscribed(ops: seq<Op>)
    requires ops != [] && Subscribed(Run(ops[..|ops| - 1]).0)
    ensures Subscribed(Run(ops).0) <==> !BareConnect(Run(ops[..|ops| - 1]).0, ops[|ops| - 1])
  {
    hide Subscribed, BareConnect, Step;
    StepSubscribed(Run(ops[..|ops| - 1]).0, ops[|ops| - 1]);
  }

  /** Whatever the network answers, a disciplined run keeps every handler's topic subscribed. */
  lemma {:induction false} RunSubscribed(ops: seq<Op>)
    requires Disciplined(ops)
    ensures Subscribed(Run(ops).0)
  {
    RunSubscribedExact(ops);
    assert ops[..|ops|] == ops;
  }

  /** A direct connect that succeeds keeps the property exactly when no handler is registered. */
  lemma ConnectExact(s: State)
    requires s.phase == Initialized || s.phase == Disconnected
    ensures Subscribed(Connect(s, ConnectAnswer(ZSUCCESS, 0)).state) <==> NoHandler(s)
  {
  }

  /** A handler registered before the first direct connect is never subscribed by it. */
  lemma UndisciplinedRun()
    ensures
      var ops := [OpSubscribe(CommandTopic, Some(7), Answer(ZSUCCESS, true)), OpConnect(ConnectAnswer(ZSUCCESS, 0))];
      Run(ops).0.phase == Connected && !Subscribed(Run(ops).0)
  {
    var o1 := OpSubscribe(CommandTopic, Some(7), Answer(ZSUCCESS, true));
    var o2 := OpConnect(ConnectAnswer(ZSUCCESS, 0));
    assert [o1, o2][..1] == [o1] && [o1][..0] == [];
    assert Run([o1]).0 == START.(commandHandler := Some(7));
    assert Run([o1, o2]).0 == START.(commandHandler := Some(7), phase := Connected, session := {});
  }

  // ---- back-off ----

  /** NextInterval iterated k times from the minimum. */
  function Backoff(k: nat): int
  {
    if k == 0 then MIN_RETRY_INTERVAL else NextInterval(Backoff(k - 1))
  }

  function Pow2(k: nat): nat { if k == 0 then 1 else 2 * Pow2(k - 1) }

  /** 2, 4, ... 2048, and from the eleventh failure on 1800: the cap acts one step late. */
  lemma {:induction false} BackoffValues(k: nat)
    ensures Backoff(k) == if k <= 10 then Pow2(k + 1) else MAX_RETRY_INTERVAL
    ensures MIN_RETRY_INTERVAL <= Backoff(k) <= 2048
  {
    if k == 0 {
    } else {
      BackoffValues(k - 1);
      if k <= 10 {
        Pow2Small(k);
      } else if k == 11 {
        assert Pow2(11) == 2048;
      }
    }
  }

  lemma {:induction false} Pow2Small(k: nat)
    requires k <= 10
    ensures 1 <= Pow2(k) <= 1024
  {
    if k > 0 { Pow2Small(k - 1); }
    assert k > 0 ==> Pow2(k) == 2 * Pow2(k - 1);
    PowTable(k);
  }

  lemma PowTable(k: nat)
    requires k <= 10
    ensures Pow2(k) <= 1024
  {
    assert Pow2(0) == 1 && Pow2(1) == 2 && Pow2(2) == 4 && Pow2(3) == 8 && Pow2(4) == 16 && Pow2(5) == 32;
    assert Pow2(6) == 64 && Pow2(7) == 128 && Pow2(8) == 256 && Pow2(9) == 512 && Pow2(10) == 1024;
  }

  lemma AfterReconnectBackoff(s: State, n: ReconnectAnswer)
    requires SlotsAgree(s)
    ensures AfterReconnect(s, n).state.interval == s.interval
    ensures AfterReconnect(s, n).state.retryCount == s.retryCount
  {
    hide Resubscribe, ResendAck, ResendEvent;
    ResubscribeSlots(s, n);
    var s1 := Resubscribe(s, n).0;
    ResendKeeps(s1, n);
    ResendKeeps(ResendAck(s1, n).0, n);
  }

  lemma ReconnectBackoff(s: State, n: ReconnectAnswer)
    requires SlotsAgree(s) && s.interval == Backoff(s.retryCount)
    ensures Reconnect(s, n).state.interval == Backoff(Reconnect(s, n).state.retryCount)
  {
    hide AfterReconnect, NextInterval;
    var s0 := if s.startTime == 0 then s.(startTime := n.now0) else s;
    var c := Connect(s0.(phase := Initialized), n.connect);
    var s1 := c.state.(retryCount := 0, startTime := 0, interval := MIN_RETRY_INTERVAL);
    assert SlotsAgree(s1);
    AfterReconnectBackoff(s1, n);
    assert c.state.interval == s.interval && c.state.retryCount == s.retryCount;
    assert Backoff(s.retryCount + 1) == NextInterval(s.interval);
  }

  lemma {:induction false} StepBackoff(s: State, op: Op)
    requires SlotsAgree(s) && s.interval == Backoff(s.retryCount)
    ensures Step(s, op).state.interval == Backoff(Step(s, op).state.retryCount)
  {
    hide Reconnect, Backoff;
    if op.OpReconnect? { ReconnectBackoff(s, op.n); }
  }

  /** Over every run the interval is the back-off of the current number of failures. */
  lemma {:induction false} RunBackoff(ops: seq<Op>)
    ensures Run(ops).0.interval == Backoff(Run(ops).0.retryCount)
  {
    hide Step;
    if ops != [] {
      RunBackoff(ops[..|ops| - 1]);
      StepBackoff(Run(ops[..|ops| - 1]).0, ops[|ops| - 1]);
    }
  }

  /** A reconnect asked for before the interval has passed does not touch the network. */
  lemma ReconnectWaits(s: State, n: ReconnectAnswer)
    requires SlotsAgree(s) && (s.phase == Initialized || s.phase == Disconnected)
    requires s.startTime != 0 && Elapsed(n.now1, s.startTime) <= s.interval
    ensures Reconnect(s, n) == Outcome(s, ZFAILURE, [])
  {
  }

  // ---- slots ----

  function AcksIn(s: State): multiset<StoredAck>
  {
    if s.failedAck.Some? then multiset{s.failedAck.value} else multiset{}
  }

  function EventsIn(s: State): multiset<StoredEvent>
  {
    if s.failedEvent.Some? then multiset{s.failedEvent.value} else multiset{}
  }

  /** What one effect puts into a slot and what it takes out of it. */
  function AckIn(e: Effect): multiset<StoredAck>
  {
    match e case AckStored(a) => multiset{a} case _ => multiset{}
  }

  function AckOut(e: Effect): multiset<StoredAck>
  {
    match e case AckReplaced(a) => multiset{a} case AckResent(a) => multiset{a} case _ => multiset{}
  }

  function EventIn(e: Effect): multiset<StoredEvent>
  {
    match e case EventStored(v) => multiset{v} case _ => multiset{}
  }

  function EventOut(e: Effect): multiset<StoredEvent>
  {
    match e
    case EventReplaced(v) => multiset{v} case EventResent(v, _) => multiset{v} case EventExpired(v, _) => multiset{v}
    case _ => multiset{}
  }

  function Gather<T>(f: Effect -> multiset<T>, es: seq<Effect>): multiset<T>
  {
    if es == [] then multiset{} else Gather(f, es[..|es| - 1]) + f(es[|es| - 1])
  }

  lemma {:induction false} GatherAppend<T>(f: Effect -> multiset<T>, es: seq<Effect>, fs: seq<Effect>)
    ensures Gather(f, es + fs) == Gather(f, es) + Gather(f, fs)
  {
    if fs == [] {
      assert es + fs == es;
    } else {
      var k := |fs| - 1;
      GatherAppend(f, es, fs[..k]);
      assert (es + fs)[..|es + fs| - 1] == es + fs[..k];
    }
  }

  lemma GatherOne<T>(f: Effect -> multiset<T>, e: Effect)
    ensures Gather(f, [e]) == f(e)
  {
    assert [e][..0] == [];
    assert Gather(f, [e]) == Gather(f, []) + f(e);
  }

  /** The effects account for the change of both slots: what was in plus what came is what left plus what is in. */
  ghost predicate Accounts(s: State, es: seq<Effect>, t: State)
  {
    && AcksIn(s) + Gather(AckIn, es) == Gather(AckOut, es) + AcksIn(t)
    && EventsIn(s) + Gather(EventIn, es) == Gather(EventOut, es) + EventsIn(t)
  }

  lemma {:induction false} AccountsChain(s: State, es: seq<Effect>, t: State, fs: seq<Effect>, u: State)
    requires Accounts(s, es, t) && Accounts(t, fs, u)
    ensures Accounts(s, es + fs, u)
  {
    hide AcksIn, EventsIn, AckIn, AckOut, EventIn, EventOut, Gather;
    GatherAppend(AckIn, es, fs);
    GatherAppend(AckOut, es, fs);
    GatherAppend(EventIn, es, fs);
    GatherAppend(EventOut, es, fs);
    SumsChain(AcksIn(s), Gather(AckIn, es), Gather(AckOut, es), AcksIn(t), Gather(AckIn, fs), Gather(AckOut, fs), AcksIn(u));
    SumsChain(EventsIn(s), Gather(EventIn, es), Gather(EventOut, es), EventsIn(t), Gather(EventIn, fs), Gather(EventOut, fs), EventsIn(u));
  }

  lemma SumsChain<T>(a: multiset<T>, i: multiset<T>, o: multiset<T>, b: multiset<T>, i': multiset<T>, o': multiset<T>, c: multiset<T>)
    requires a + i == o + b && b + i' == o' + c
    ensures a + (i + i') == (o + o') + c
  {
    assert a + (i + i') == (a + i) + i';
    assert (o + b) + i' == o + (b + i');
    assert o + (o' + c) == (o + o') + c;
  }

  lemma AccountsOne(s: State, e: Effect, t: State)
    requires AcksIn(s) + AckIn(e) == AckOut(e) + AcksIn(t)
    requires EventsIn(s) + EventIn(e) == EventOut(e) + EventsIn(t)
    ensures Accounts(s, [e], t)
  {
    hide AcksIn, EventsIn, AckIn, AckOut, EventIn, EventOut;
    GatherOne(AckIn, e);
    GatherOne(AckOut, e);
    GatherOne(EventIn, e);
    GatherOne(EventOut, e);
  }

  lemma AccountsNothing(s: State, t: State)
    requires s.failedAck == t.failedAck && s.failedEvent == t.failedEvent
    ensures Accounts(s, [], t)
  {
  }

  /** A single effect that fills or empties one slot. */
  lemma AckFills(s: State, a: StoredAck, t: State)
    requires s.failedAck == None && t.failedAck == Some(a) && s.failedEvent == t.failedEvent
    ensures Accounts(s, [AckStored(a)], t)
  {
    AccountsOne(s, AckStored(a), t);
  }

  lemma AckEmpties(s: State, e: Effect, t: State)
    requires (e.AckReplaced? || e.AckResent?) && s.failedAck == Some(e.a)
    requires t.failedAck == None && s.failedEvent == t.failedEvent
    ensures Accounts(s, [e], t)
  {
    AccountsOne(s, e, t);
  }

  lemma EventFills(s: State, v: StoredEvent, t: State)
    requires s.failedEvent == None && t.failedEvent == Some(v) && s.failedAck == t.failedAck
    ensures Accounts(s, [EventStored(v)], t)
  {
    AccountsOne(s, EventStored(v), t);
  }

  lemma EventEmpties(s: State, e: Effect, t: State)
    requires (e.EventReplaced? || e.EventResent? || e.EventExpired?) && s.failedEvent == Some(e.e)
    requires t.failedEvent == None && s.failedAck == t.failedAck
    ensures Accounts(s, [e], t)
  {
    AccountsOne(s, e, t);
  }

  lemma AckAccounts(s: State, t: AckTopic, payload: Option<Payload>, a: Answer)
    ensures Accounts(s, PublishAck(s, t, payload, a).effects, PublishAck(s, t, payload, a).state)
  {
    hide Accounts;
    var o := PublishAck(s, t, payload, a);
    if o.effects == [] {
      AccountsNothing(s, o.state);
    } else {
      var mid := s.(failedAck := None);
      AckFills(mid, o.state.failedAck.value, o.state);
      if s.failedAck.Some? {
        AckEmpties(s, AckReplaced(s.failedAck.value), mid);
        AccountsChain(s, [AckReplaced(s.failedAck.value)], mid, [AckStored(o.state.failedAck.value)], o.state);
      } else {
        assert mid == s && o.effects == [AckStored(o.state.failedAck.value)];
      }
    }
  }

  lemma EventAccounts(s: State, payload: Option<Payload>, now: nat, a: Answer)
    ensures Accounts(s, DispatchEvent(s, payload, now, a).effects, DispatchEvent(s, payload, now, a).state)
  {
    hide Accounts;
    var o := DispatchEvent(s, payload, now, a);
    if o.effects == [] {
      AccountsNothing(s, o.state);
    } else {
      var mid := s.(failedEvent := None);
      EventFills(mid, o.state.failedEvent.value, o.state);
      if s.failedEvent.Some? {
        EventEmpties(s, EventReplaced(s.failedEvent.value), mid);
        AccountsChain(s, [EventReplaced(s.failedEvent.value)], mid, [EventStored(o.state.failedEvent.value)], o.state);
      } else {
        assert mid == s && o.effects == [EventStored(o.state.failedEvent.value)];
      }
    }
  }

  lemma ResendAckAccounts(s: State, n: ReconnectAnswer)
    requires SlotsAgree(s)
    ensures Accounts(s, ResendAck(s, n).2, ResendAck(s, n).0) && SlotsAgree(ResendAck(s, n).0)
  {
    hide Accounts;
    var (t, done, es) := ResendAck(s, n);
    if es == [] { AccountsNothing(s, t); } else { AckEmpties(s, es[0], t); }
  }

  lemma ResendEventAccounts(s: State, n: ReconnectAnswer)
    requires SlotsAgree(s)
    ensures Accounts(s, ResendEvent(s, n).2, ResendEvent(s, n).0)
  {
    hide Accounts;
    var (t, done, es) := ResendEvent(s, n);
    if es == [] { AccountsNothing(s, t); } else { EventEmpties(s, es[0], t); }
  }

  lemma AfterReconnectAccounts(s: State, n: ReconnectAnswer)
    requires SlotsAgree(s)
    ensures Accounts(s, AfterReconnect(s, n).effects, AfterReconnect(s, n).state)
  {
    hide Resubscribe, Subscribe, Accounts, ResendAck, ResendEvent;
    var (s1, subscribed) := Resubscribe(s, n);
    ResubscribeSlots(s, n);
    AccountsNothing(s, s1);
    if subscribed {
      ResendAckAccounts(s1, n);
      var (s2, ackDone, e2) := ResendAck(s1, n);
      AccountsChain(s, [], s1, e2, s2);
      assert [] + e2 == e2;
      if ackDone {
        ResendEventAccounts(s2, n);
        var (s3, eventDone, e3) := ResendEvent(s2, n);
        AccountsChain(s, e2, s2, e3, s3);
      }
    }
  }

  lemma ReconnectAccounts(s: State, n: ReconnectAnswer)
    requires SlotsAgree(s)
    ensures Accounts(s, Reconnect(s, n).effects, Reconnect(s, n).state)
  {
    hide AfterReconnect, Accounts;
    var s0 := if s.startTime == 0 then s.(startTime := n.now0) else s;
    var c := Connect(s0.(phase := Initialized), n.connect);
    var s1 := c.state.(retryCount := 0, startTime := 0, interval := MIN_RETRY_INTERVAL);
    assert SlotsAgree(s1);
    AccountsNothing(s, s1);
    AfterReconnectAccounts(s1, n);
    AccountsChain(s, [], s1, AfterReconnect(s1, n).effects, AfterReconnect(s1, n).state);
    assert [] + AfterReconnect(s1, n).effects == AfterReconnect(s1, n).effects;
    if Reconnect(s, n).effects == [] {
      AccountsNothing(s, s0);
      if s.phase == Initialized || s.phase == Disconnected {
        if Elapsed(n.now1, s0.startTime) > s0.interval && c.rc != ZSUCCESS {
          AccountsNothing(s, Reconnect(s, n).state);
        }
      } else {
        AccountsNothing(s, s);
      }
    }
  }

  lemma {:induction false} StepAccounts(s: State, op: Op)
    requires SlotsAgree(s)
    ensures Accounts(s, Step(s, op).effects, Step(s, op).state)
  {
    hide Accounts, Reconnect, PublishAck, DispatchEvent;
    match op
    case OpReconnect(n) => ReconnectAccounts(s, n);
    case OpAck(t, p, a) => AckAccounts(s, t, p, a);
    case OpEvent(p, now, a) => EventAccounts(s, p, now, a);
    case _ => AccountsNothing(s, Step(s, op).state);
  }

  /**
   Conservation over a run: everything ever stored is in its slot now or left it by a
   successful resend, a replacement or (events only) expiry, counted with multiplicity.
   */
  lemma {:induction false} RunConserves(ops: seq<Op>)
    ensures Gather(AckIn, Run(ops).1) == Gather(AckOut, Run(ops).1) + AcksIn(Run(ops).0)
    ensures Gather(EventIn, Run(ops).1) == Gather(EventOut, Run(ops).1) + EventsIn(Run(ops).0)
  {
    RunAccounts(ops);
  }

  lemma {:induction false} RunAccounts(ops: seq<Op>)
    ensures Accounts(START, Run(ops).1, Run(ops).0)
  {
    hide Step, Accounts;
    if ops == [] {
      AccountsNothing(START, START);
    } else {
      var k := |ops| - 1;
      RunAccounts(ops[..k]);
      var (s, es) := Run(ops[..k]);
      StepAccounts(s, ops[k]);
      AccountsChain(START, es, s, Step(s, ops[k]).effects, Step(s, ops[k]).state);
    }
  }

  /** A resent event was stored at most 300 seconds before; an expired one longer ago. */
  predicate TimelyEffect(e: Effect)
  {
    match e
    case EventResent(v, now) => now <= v.time + EVENT_LIFETIME
    case EventExpired(v, now) => now > v.time + EVENT_LIFETIME
    case _ => true
  }

  lemma {:induction false} RunTimely(ops: seq<Op>)
    ensures forall i :: 0 <= i < |Run(ops).1| ==> TimelyEffect(Run(ops).1[i])
  {
    if ops != [] {
      RunTimely(ops[..|ops| - 1]);
    }
  }

  /** A replacement always puts the new payload of the same call into the slot. */
  lemma ReplacedMeansStored(s: State, op: Op, i: nat)
    requires SlotsAgree(s) && i < |Step(s, op).effects|
    ensures Step(s, op).effects[i].AckReplaced? ==>
              i + 1 < |Step(s, op).effects| && Step(s, op).effects[i + 1].AckStored?
              && Step(s, op).state.failedAck == Some(Step(s, op).effects[i + 1].a)
    ensures Step(s, op).effects[i].EventReplaced? ==>
              i + 1 < |Step(s, op).effects| && Step(s, op).effects[i + 1].EventStored?
              && Step(s, op).state.failedEvent == Some(Step(s, op).effects[i + 1].e)
  {
  }

  // ---- the client object ----

  class ZohoClient {
    var currentState: Phase
    var startTime: nat
    var retryCount: nat
    var retryInterval: int
    var onCommand: Option<Handler>
    var onConfig: Option<Handler>
    var retryAck: bool
    var failedAck: Option<StoredAck>
    var retryEvent: bool
    var failedEvent: Option<StoredEvent>
    var yieldTime: nat
    ghost var session: set<Topic>

    ghost function Abstract(): State
      reads this
    {
      State(currentState, startTime, retryCount, retryInterval, onCommand, onConfig,
            retryAck, failedAck, retryEvent, failedEvent, yieldTime, session)
    }

    ghost predicate Valid()
      reads this
    {
      SlotsAgree(Abstract())
    }

    /** A successful zclient_init. */
    constructor ()
      ensures Valid() && Abstract() == START
    {
      currentState, startTime, retryCount, retryInterval := Initialized, 0, 0, MIN_RETRY_INTERVAL;
      onCommand, onConfig := None, None;
      retryAck, failedAck, retryEvent, failedEvent := false, None, false, None;
      yieldTime, session := 0, {};
    }

    method ValidateState() returns (rc: int)
      ensures rc == if currentState == Uninitialized then NOT_INITIALIZED else ZSUCCESS
    {
      if currentState == Initialized || currentState == Connected || currentState == Disconnected {
        return ZSUCCESS;
      }
      return NOT_INITIALIZED;
    }

    /** zclient_connect */
    method DoConnect(c: ConnectAnswer) returns (rc: int)
      requires Valid()
      modifies this
      ensures Valid() && Abstract() == Connect(old(Abstract()), c).state && rc == Connect(old(Abstract()), c).rc
    {
      rc := ValidateState();
      if rc != 0 {
        return;
      }
      if currentState == Connected {
        return ZSUCCESS;
      }
      rc := c.networkRc;
      if rc != ZSUCCESS {
        if rc == TIME_CHANGED {
          var d := DoDisconnect(ZSUCCESS);
          startTime := 0;
        }
        return ZFAILURE;
      }
      rc := c.mqttRc;
      if rc == 0 {
        currentState := Connected;
        session := {};
      }
    }

    /** zclient_disconnect */
    method DoDisconnect(answer: int) returns (rc: int)
      requires Valid()
      modifies this
      ensures Valid() && Abstract() == Disconnect(old(Abstract()), answer).state && rc == Disconnect(old(Abstract()), answer).rc
    {
      rc := ZSUCCESS;
      if currentState == Connected {
        rc := answer;
      }
      currentState := Disconnected;
    }

    /** zclient_command_subscribe and zclient_config_subscribe */
    method DoSubscribe(t: Topic, handler: Option<Handler>, a: Answer) returns (rc: int)
      requires Valid()
      modifies this
      ensures Valid() && Abstract() == Subscribe(old(Abstract()), t, handler, a).state
      ensures rc == Subscribe(old(Abstract()), t, handler, a).rc
    {
      rc := ValidateState();
      if rc != 0 {
        return;
      }
      if handler == None {
        return ZFAILURE;
      }
      if t == CommandTopic {
        onCommand := handler;
      } else {
        onConfig := handler;
      }
      if currentState != Connected {
        return ZFAILURE;
      }
      rc := a.rc;
      if rc == ZSUCCESS {
        session := session + {t};
      } else if !a.connected {
        currentState := Disconnected;
      } else {
        currentState := Disconnected;
      }
    }

    /** zclient_reconnect */
    method DoReconnect(n: ReconnectAnswer) returns (rc: int, ghost effects: seq<Effect>)
      requires Valid()
      modifies this
      ensures Valid() && Outcome(Abstract(), rc, effects) == Reconnect(old(Abstract()), n)
    {
      hide Attempt;
      effects := [];
      rc := ValidateState();
      if rc != 0 {
        return;
      }
      if currentState == Connected {
        return ZSUCCESS, [];
      }
      if startTime == 0 {
        startTime := n.now0;
      }
      var delay := retryInterval;
      if Elapsed(n.now1, startTime) > delay {
        if currentState != Initialized {
          currentState := Initialized;
        }
        rc, effects := TryConnect(n);
        return;
      }
      return ZFAILURE, [];
    }

    /** One connection attempt of zclient_reconnect. */
    method TryConnect(n: ReconnectAnswer) returns (rc: int, ghost effects: seq<Effect>)
      requires Valid() && currentState == Initialized
      modifies this
      ensures Valid() && Outcome(Abstract(), rc, effects) == Attempt(old(Abstract()), n)
    {
      hide Connect, AfterReconnect, NextInterval;
      ConnectShape(Abstract(), n.connect);
      rc := DoConnect(n.connect);
      if rc == ZSUCCESS {
        currentState := Connected;
        retryCount := 0;
        startTime := 0;
        retryInterval := MIN_RETRY_INTERVAL;
        rc, effects := FinishReconnect(n);
        return;
      }
      startTime := n.now2;
      retryInterval := GetRetryInterval(retryInterval);
      retryCount := retryCount + 1;
      if currentState != Disconnected && currentState != Connected {
        return ZCONNECTION_ERROR, [];
      }
      return ZFAILURE, [];
    }

    /** The part of zclient_reconnect behind a successful connect: subscribe again, then resend. */
    method FinishReconnect(n: ReconnectAnswer) returns (rc: int, ghost effects: seq<Effect>)
      requires Valid() && currentState == Connected
      modifies this
      ensures Valid() && Outcome(Abstract(), rc, effects) == AfterReconnect(old(Abstract()), n)
    {
      hide Resubscribe, ResendAck, ResendEvent;
      var more := SubscribeAgain(n);
      if !more {
        return ZFAILURE, [];
      }
      more, effects := ResendStoredAck(n);
      if !more {
        return ZFAILURE, effects;
      }
      ghost var more2;
      more, more2 := ResendStoredEvent(n);
      effects := effects + more2;
      return if more then ZSUCCESS else ZFAILURE, effects;
    }

    method SubscribeAgain(n: ReconnectAnswer) returns (more: bool)
      requires Valid() && currentState == Connected
      modifies this
      ensures Valid() && (Abstract(), more) == Resubscribe(old(Abstract()), n)
    {
      if onCommand != None {
        var subscribeRc := DoSubscribe(CommandTopic, onCommand, n.command);
        if subscribeRc != ZSUCCESS {
          return false;
        }
      }
      if onConfig != None {
        var subscribeRc := DoSubscribe(ConfigTopic, onConfig, n.config);
        if subscribeRc != ZSUCCESS {
          return false;
        }
      }
      return true;
    }

    method ResendStoredAck(n: ReconnectAnswer) returns (more: bool, ghost effects: seq<Effect>)
      requires Valid()
      modifies this
      ensures Valid() && (Abstract(), more, effects) == ResendAck(old(Abstract()), n)
    {
      effects := [];
      if retryAck {
        if !n.ackPrints {
          return false, [];
        }
        if n.ack.rc == ZSUCCESS {
          effects := [AckResent(failedAck.value)];
          failedAck := None;
          retryAck := false;
        }
      }
      return true, effects;
    }

    method ResendStoredEvent(n: ReconnectAnswer) returns (more: bool, ghost effects: seq<Effect>)
      requires Valid()
      modifies this
      ensures Valid() && (Abstract(), more, effects) == ResendEvent(old(Abstract()), n)
    {
      effects := [];
      if retryEvent {
        if failedEvent.value.time + EVENT_LIFETIME < n.nowEvent {
          effects := [EventExpired(failedEvent.value, n.nowEvent)];
          failedEvent := None;
          retryEvent := false;
        } else {
          if !n.eventPrints {
            return false, [];
          }
          if n.event.rc == ZSUCCESS {
            effects := [EventResent(failedEvent.value, n.nowEvent)];
            failedEvent := None;
            retryEvent := false;
          }
        }
      }
      return true, effects;
    }

    /** getRetryInterval */
    method GetRetryInterval(delay: int) returns (r: int)
      ensures r == NextInterval(delay)
    {
      if delay <= 0 {
        return MIN_RETRY_INTERVAL;
      }
      if delay < MAX_RETRY_INTERVAL {
        return delay * 2;
      } else {
        return MAX_RETRY_INTERVAL;
      }
    }

    /** zclient_publish */
    method DoPublish(a: Answer) returns (rc: int)
      requires Valid()
      modifies this
      ensures Valid() && Abstract() == Publish(old(Abstract()), a).state && rc == Publish(old(Abstract()), a).rc
    {
      rc := ValidateState();
      if rc != 0 {
        return;
      }
      if currentState != Connected {
        return ZFAILURE;
      }
      rc := a.rc;
      if rc == ZSUCCESS {
      } else if !a.connected {
        currentState := Disconnected;
      }
    }

    /** zclient_publishCommandAck, zclient_publishOTAAck and zclient_publishConfigAck */
    method DoPublishAck(t: AckTopic, payload: Option<Payload>, a: Answer) returns (rc: int, ghost effects: seq<Effect>)
      requires Valid()
      modifies this
      ensures Valid() && Outcome(Abstract(), rc, effects) == PublishAck(old(Abstract()), t, payload, a)
    {
      effects := [];
      rc := ValidateState();
      if rc != 0 {
        return;
      }
      if payload == None {
        return ZFAILURE, [];
      }
      rc := a.rc;
      if rc == ZSUCCESS {
      } else if !a.connected {
        currentState := Disconnected;
        if failedAck != None {
          effects := [AckReplaced(failedAck.value)];
        }
        failedAck := Some(StoredAck(t, payload.value));
        retryAck := true;
        effects := effects + [AckStored(failedAck.value)];
      }
    }

    /** zclient_dispatchEventFromJSONString; no payload stands for unparsable data or an empty type. */
    method DoDispatchEvent(payload: Option<Payload>, now: nat, a: Answer) returns (rc: int, ghost effects: seq<Effect>)
      requires Valid()
      modifies this
      ensures Valid() && Outcome(Abstract(), rc, effects) == DispatchEvent(old(Abstract()), payload, now, a)
    {
      effects := [];
      rc := ValidateState();
      if rc != 0 {
        return;
      }
      if currentState != Connected || payload == None {
        return ZFAILURE, [];
      }
      rc := a.rc;
      if rc != ZSUCCESS {
        if !a.connected {
          currentState := Disconnected;
        }
        if failedEvent != None {
          effects := [EventReplaced(failedEvent.value)];
        }
        failedEvent := Some(StoredEvent(now, payload.value));
        retryEvent := true;
        effects := effects + [EventStored(failedEvent.value)];
      }
    }

    /** zclient_yield */
    method DoYield(now0: nat, now1: nat, timeout: int, a: Answer) returns (rc: int)
      requires Valid()
      modifies this
      ensures Valid() && Abstract() == Yield(old(Abstract()), now0, now1, timeout, a).state
      ensures rc == Yield(old(Abstract()), now0, now1, timeout, a).rc
    {
      rc := ValidateState();
      if rc != 0 {
        return;
      }
      if Elapsed(now0, yieldTime) < YIELD_INTERVAL {
        return 2;
      }
      yieldTime := now1;
      if timeout <= 0 {
        return ZFAILURE;
      }
      rc := a.rc;
      if rc == ZSUCCESS {
        return;
      } else if rc == ZFAILURE {
        if !a.connected {
          currentState := Disconnected;
          return ZFAILURE;
        }
      }
    }
  }
}
