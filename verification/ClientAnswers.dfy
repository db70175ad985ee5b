/**
 What each call of the client does, told by the answers of the network and the clock alone: which
 payload is in a slot afterwards, what becomes of the connection, and what a failed attempt costs.
 */
module ClientAnswers {
  import opened Client

  // ---- conditions on the answers ----

  predicate CanConnect(s: State)
  {
    s.phase == Initialized || s.phase == Disconnected
  }

  predicate Opens(c: ConnectAnswer)
  {
    c.networkRc == ZSUCCESS && c.mqttRc == 0
  }

  /** A reconnect gets as far as the network: the interval has passed since the last failure. */
  predicate Attempts(s: State, n: ReconnectAnswer)
  {
    CanConnect(s) && Elapsed(n.now1, if s.startTime == 0 then n.now0 else s.startTime) > s.interval
  }

  /** The broker accepts the subscription of every registered handler. */
  predicate Subscribes(s: State, n: ReconnectAnswer)
  {
    (s.commandHandler.Some? ==> n.command.rc == ZSUCCESS) && (s.configHandler.Some? ==> n.config.rc == ZSUCCESS)
  }

  /** A reconnect opens a session and gets through its subscriptions. */
  predicate Resumes(s: State, n: ReconnectAnswer)
  {
    Attempts(s, n) && Opens(n.connect) && Subscribes(s, n)
  }

  predicate Lost(a: Answer)
  {
    a.rc != ZSUCCESS && !a.connected
  }

  /** There is an acknowledgement to resend, and publishing it is answered with success. */
  predicate AckSucceeds(s: State, n: ReconnectAnswer)
  {
    s.failedAck.Some? && n.ackPrints && n.ack.rc == ZSUCCESS
  }

  /** There is an event to look at: an acknowledgement in front of it could be printed. */
  predicate EventReached(s: State, n: ReconnectAnswer)
  {
    (s.failedAck.Some? ==> n.ackPrints) && s.failedEvent.Some?
  }

  predicate Expired(s: State, now: nat)
  {
    s.failedEvent.Some? && s.failedEvent.value.time + EVENT_LIFETIME < now
  }

  predicate EventSucceeds(s: State, n: ReconnectAnswer)
  {
    EventReached(s, n) && !Expired(s, n.nowEvent) && n.eventPrints && n.event.rc == ZSUCCESS
  }

  /** Nothing that is stored and still to be sent fails to be printed. */
  predicate Prints(s: State, n: ReconnectAnswer)
  {
    (s.failedAck.Some? ==> n.ackPrints) && (s.failedEvent.Some? && !Expired(s, n.nowEvent) ==> n.eventPrints)
  }

  /** What may differ between two states besides the slots, the phase and the session. */
  predicate SameCounters(s: State, t: State)
  {
    && t.startTime == s.startTime && t.retryCount == s.retryCount && t.interval == s.interval
    && t.commandHandler == s.commandHandler && t.configHandler == s.configHandler
  }

  predicate SameSlots(s: State, t: State)
  {
    t.failedAck == s.failedAck && t.failedEvent == s.failedEvent && t.retryAck == s.retryAck && t.retryEvent == s.retryEvent
  }

  // ---- a reconnect, part by part ----

  lemma ResubscribeAnswers(s: State, n: ReconnectAnswer)
    requires s.phase == Connected
    ensures var (t, more) := Resubscribe(s, n);
      && (more <==> Subscribes(s, n)) && t.phase == (if more then Connected else Disconnected)
      && SameCounters(s, t) && SameSlots(s, t)
  {
  }

  lemma ResendAckAnswers(s: State, n: ReconnectAnswer)
    requires SlotsAgree(s)
    ensures var (t, more, es) := ResendAck(s, n);
      && (more <==> (s.failedAck.Some? ==> n.ackPrints))
      && t == (if AckSucceeds(s, n) then s.(failedAck := None, retryAck := false) else s)
      && es == (if AckSucceeds(s, n) then [AckResent(s.failedAck.value)] else [])
  {
  }

  lemma ResendEventAnswers(s: State, n: ReconnectAnswer)
    requires SlotsAgree(s)
    ensures var (t, more, es) := ResendEvent(s, n);
      var sent := s.failedEvent.Some? && !Expired(s, n.nowEvent) && n.eventPrints && n.event.rc == ZSUCCESS;
      && (more <==> (s.failedEvent.Some? && !Expired(s, n.nowEvent) ==> n.eventPrints))
      && t == (if sent || Expired(s, n.nowEvent) then s.(failedEvent := None, retryEvent := false) else s)
      && es == (if sent then [EventResent(s.failedEvent.value, n.nowEvent)]
                else if Expired(s, n.nowEvent) then [EventExpired(s.failedEvent.value, n.nowEvent)] else [])
  {
  }

  function AckEffects(s: State, n: ReconnectAnswer): seq<Effect>
  {
    if AckSucceeds(s, n) then [AckResent(s.failedAck.value)] else []
  }

  function EventEffects(s: State, n: ReconnectAnswer): seq<Effect>
  {
    if EventSucceeds(s, n) then [EventResent(s.failedEvent.value, n.nowEvent)]
    else if EventReached(s, n) && Expired(s, n.nowEvent) then [EventExpired(s.failedEvent.value, n.nowEvent)]
    else []
  }

  /** The slots behind a successful connect. */
  predicate Resent(s: State, n: ReconnectAnswer, t: State)
  {
    && t.failedAck == (if AckSucceeds(s, n) then None else s.failedAck)
    && t.failedEvent == (if EventSucceeds(s, n) || (EventReached(s, n) && Expired(s, n.nowEvent)) then None else s.failedEvent)
  }

  lemma AfterReconnectAnswers(s: State, n: ReconnectAnswer)
    requires SlotsAgree(s) && s.phase == Connected
    ensures var o := AfterReconnect(s, n);
      && SameCounters(s, o.state)
      && (o.state.phase == Connected <==> Subscribes(s, n)) && o.state.phase != Uninitialized
      && (o.rc == ZSUCCESS <==> Subscribes(s, n) && Prints(s, n)) && (o.rc == ZSUCCESS || o.rc == ZFAILURE)
      && (if Subscribes(s, n) then Resent(s, n, o.state) && o.effects == AckEffects(s, n) + EventEffects(s, n)
          else SameSlots(s, o.state) && o.effects == [])
  {
    hide Resubscribe, ResendAck, ResendEvent, Subscribes;
    ResubscribeAnswers(s, n);
    var s1 := Resubscribe(s, n).0;
    ResendAckAnswers(s1, n);
    var s2 := ResendAck(s1, n).0;
    ResendEventAnswers(s2, n);
  }

  /** One attempt, from the state in which zclient_reconnect tries to connect. */
  lemma AttemptAnswers(s: State, n: ReconnectAnswer)
    requires SlotsAgree(s) && s.phase == Initialized
    ensures var o := Attempt(s, n);
      if Opens(n.connect) then
        && o.state.retryCount == 0 && o.state.interval == MIN_RETRY_INTERVAL && o.state.startTime == 0
        && o.state.commandHandler == s.commandHandler && o.state.configHandler == s.configHandler
        && (o.state.phase == Connected <==> Subscribes(s, n))
        && (o.rc == ZSUCCESS <==> Subscribes(s, n) && Prints(s, n))
        && (if Subscribes(s, n) then Resent(s, n, o.state) && o.effects == AckEffects(s, n) + EventEffects(s, n)
            else SameSlots(s, o.state) && o.effects == [])
      else
        && o.state.retryCount == s.retryCount + 1 && o.state.startTime == n.now2 && o.state.phase != Connected
        && o.state.commandHandler == s.commandHandler && o.state.configHandler == s.configHandler
        && SameSlots(s, o.state) && o.effects == [] && o.rc != ZSUCCESS
  {
    hide AfterReconnect, NextInterval;
    var c := Connect(s, n.connect);
    var s1 := c.state.(retryCount := 0, startTime := 0, interval := MIN_RETRY_INTERVAL);
    if Opens(n.connect) {
      assert c == Outcome(s.(phase := Connected, session := {}), 0, []);
      AfterReconnectAnswers(s1, n);
      hide Subscribes, Prints, AckSucceeds, EventSucceeds, EventReached, Expired;
      SameAnswers(s, s1, n);
    } else {
      ConnectShape(s, n.connect);
      assert c.rc != ZSUCCESS;
    }
  }

  /** The conditions look at handlers and slots only. */
  lemma SameAnswers(s: State, t: State, n: ReconnectAnswer)
    requires SameSlots(s, t) && t.commandHandler == s.commandHandler && t.configHandler == s.configHandler
    ensures Subscribes(t, n) == Subscribes(s, n) && Prints(t, n) == Prints(s, n)
    ensures AckEffects(t, n) == AckEffects(s, n) && EventEffects(t, n) == EventEffects(s, n)
    ensures forall u :: Resent(t, n, u) == Resent(s, n, u)
  {
  }

  lemma ReconnectAnswers(s: State, n: ReconnectAnswer)
    requires SlotsAgree(s)
    ensures var o := Reconnect(s, n);
      && o.state.commandHandler == s.commandHandler && o.state.configHandler == s.configHandler
      && (o.state.phase == Connected <==> s.phase == Connected || Resumes(s, n))
      && (o.rc == ZSUCCESS <==> s.phase == Connected || (Resumes(s, n) && Prints(s, n)))
      && (if Resumes(s, n) then Resent(s, n, o.state) && o.effects == AckEffects(s, n) + EventEffects(s, n)
          else SameSlots(s, o.state) && o.effects == [])
      && (if Attempts(s, n) && Opens(n.connect) then o.state.retryCount == 0 && o.state.interval == MIN_RETRY_INTERVAL && o.state.startTime == 0
          else if Attempts(s, n) then o.state.retryCount == s.retryCount + 1 && o.state.startTime == n.now2
          else o.state.retryCount == s.retryCount && o.state.interval == s.interval)
  {
    hide Attempt, Elapsed;
    var s0 := if s.startTime == 0 then s.(startTime := n.now0) else s;
    var s1 := s0.(phase := Initialized);
    if Attempts(s, n) {
      AttemptAnswers(s1, n);
      hide Subscribes, Prints, AckSucceeds, EventSucceeds, EventReached, Expired;
      SameAnswers(s, s1, n);
    }
  }

  // ---- the slot of the acknowledgement ----

  /** An acknowledgement is published and the connection is lost over it. */
  predicate AckFails(s: State, op: Op)
  {
    op.OpAck? && s.phase != Uninitialized && op.payload.Some? && Lost(op.a)
  }

  /** The stored acknowledgement is published, and the answer is success. */
  predicate AckGoesOut(s: State, op: Op)
  {
    op.OpReconnect? && Resumes(s, op.n) && AckSucceeds(s, op.n)
  }

  /** The slot after a call: the new payload after a loss, empty after a successful resend, unchanged otherwise. */
  lemma StepAckSlot(s: State, op: Op)
    requires SlotsAgree(s)
    ensures Step(s, op).state.failedAck ==
      if AckFails(s, op) then Some(StoredAck(op.ackTopic, op.payload.value))
      else if AckGoesOut(s, op) then None
      else s.failedAck
  {
    hide Reconnect, Resumes, Attempts;
    if op.OpReconnect? { ReconnectAnswers(s, op.n); }
  }

  /** Which effects a call has on it. */
  lemma StepAckEffects(s: State, op: Op, a: StoredAck)
    requires SlotsAgree(s)
    ensures AckStored(a) in Step(s, op).effects <==> AckFails(s, op) && a == StoredAck(op.ackTopic, op.payload.value)
    ensures AckReplaced(a) in Step(s, op).effects <==> AckFails(s, op) && s.failedAck == Some(a)
    ensures AckResent(a) in Step(s, op).effects <==> AckGoesOut(s, op) && s.failedAck == Some(a)
  {
    hide Reconnect, Resumes, Attempts, EventReached, Expired, EventSucceeds;
    if op.OpReconnect? { ReconnectAnswers(s, op.n); }
  }

  // ---- the slot of the event ----

  /** An event is published without success, whether or not the connection is lost. */
  predicate EventFails(s: State, op: Op)
  {
    op.OpEvent? && s.phase == Connected && op.payload.Some? && op.a.rc != ZSUCCESS
  }

  predicate EventGoesOut(s: State, op: Op)
  {
    op.OpReconnect? && Resumes(s, op.n) && EventSucceeds(s, op.n)
  }

  predicate EventExpires(s: State, op: Op)
  {
    op.OpReconnect? && Resumes(s, op.n) && EventReached(s, op.n) && Expired(s, op.n.nowEvent)
  }

  lemma StepEventSlot(s: State, op: Op)
    requires SlotsAgree(s)
    ensures Step(s, op).state.failedEvent ==
      if EventFails(s, op) then Some(StoredEvent(op.now, op.payload.value))
      else if EventGoesOut(s, op) || EventExpires(s, op) then None
      else s.failedEvent
  {
    hide Reconnect, Resumes, Attempts, EventSucceeds, EventReached, Expired;
    if op.OpReconnect? { ReconnectAnswers(s, op.n); }
  }

  lemma StepEventEffects(s: State, op: Op, v: StoredEvent)
    requires SlotsAgree(s)
    ensures EventStored(v) in Step(s, op).effects <==> EventFails(s, op) && v == StoredEvent(op.now, op.payload.value)
    ensures EventReplaced(v) in Step(s, op).effects <==> EventFails(s, op) && s.failedEvent == Some(v)
    ensures forall now :: EventResent(v, now) in Step(s, op).effects <==>
              EventGoesOut(s, op) && s.failedEvent == Some(v) && now == op.n.nowEvent
    ensures forall now :: EventExpired(v, now) in Step(s, op).effects <==>
              EventExpires(s, op) && s.failedEvent == Some(v) && now == op.n.nowEvent
  {
    hide Reconnect, Resumes, Attempts, AckSucceeds;
    if op.OpReconnect? { ReconnectAnswers(s, op.n); }
  }

  // ---- over a run ----

  /** Every effect of a run belongs to one of its calls. */
  lemma {:induction false} RunCaused(ops: seq<Op>, i: nat) returns (k: nat)
    requires i < |Run(ops).1|
    ensures k < |ops| && Run(ops).1[i] in Step(Run(ops[..k]).0, ops[k]).effects
  {
    hide Step;
    k := |ops| - 1;
    var pre := ops[..k];
    var (s, es) := Run(pre);
    if i < |es| {
      k := RunCaused(pre, i);
      assert pre[..k] == ops[..k];
    } else {
      assert Run(ops).1[i] == Step(s, ops[k]).effects[i - |es|];
    }
  }

  /**
   Over every run, a payload counts as resent only where a reconnect found it in its slot, opened
   a session with all subscriptions, and publishing it was answered with success.
   */
  lemma {:induction false} RunResent(ops: seq<Op>, i: nat) returns (k: nat)
    requires i < |Run(ops).1|
    ensures k < |ops|
    ensures var e, s := Run(ops).1[i], Run(ops[..k]).0;
      && (e.AckResent? ==> AckGoesOut(s, ops[k]) && s.failedAck == Some(e.a))
      && (e.EventResent? ==> EventGoesOut(s, ops[k]) && s.failedEvent == Some(e.e) && e.now == ops[k].n.nowEvent)
      && (e.EventExpired? ==> EventExpires(s, ops[k]) && s.failedEvent == Some(e.e) && e.now == ops[k].n.nowEvent)
  {
    hide Step, Run, Resumes, AckSucceeds, EventSucceeds, EventReached, Expired;
    k := RunCaused(ops, i);
    match Run(ops).1[i]
    case AckResent(a) => StepAckEffects(Run(ops[..k]).0, ops[k], a);
    case EventResent(v, _) => StepEventEffects(Run(ops[..k]).0, ops[k], v);
    case EventExpired(v, _) => StepEventEffects(Run(ops[..k]).0, ops[k], v);
    case _ =>
  }

  /** Over every run, a stored acknowledgement stays stored until another one is lost or a resend succeeds. */
  lemma {:induction false} RunStaysStored(ops: seq<Op>, i: nat, k: nat)
    requires i <= k <= |ops|
    requires forall j :: i <= j < k ==> !AckFails(Run(ops[..j]).0, ops[j]) && !AckGoesOut(Run(ops[..j]).0, ops[j])
    ensures Run(ops[..k]).0.failedAck == Run(ops[..i]).0.failedAck
  {
    if k > i {
      RunStaysStored(ops, i, k - 1);
      hide Step, AckFails, AckGoesOut;
      assert ops[..k][..k - 1] == ops[..k - 1] && ops[..k][k - 1] == ops[k - 1];
      StepAckSlot(Run(ops[..k - 1]).0, ops[k - 1]);
    }
  }

  // ---- the connection ----

  /** The answers that end a connection. */
  predicate Breaks(s: State, op: Op)
  {
    match op
    case OpDisconnect(_) => true
    case OpPublish(a) => Lost(a)
    case OpAck(_, payload, a) => payload.Some? && Lost(a)
    case OpEvent(payload, _, a) => payload.Some? && Lost(a)
    case OpSubscribe(_, handler, a) => handler.Some? && a.rc != ZSUCCESS
    case OpYield(now0, _, timeout, a) =>
      Elapsed(now0, s.yieldTime) >= YIELD_INTERVAL && timeout > 0 && a.rc == ZFAILURE && !a.connected
    case _ => false
  }

  /** Connected after a call: it was before and nothing broke it, or the call opened a session and finished its subscriptions. */
  lemma StepConnected(s: State, op: Op)
    requires SlotsAgree(s)
    ensures Step(s, op).state.phase == Connected <==>
      || (s.phase == Connected && !Breaks(s, op))
      || (op.OpConnect? && CanConnect(s) && Opens(op.c))
      || (op.OpReconnect? && Resumes(s, op.n))
  {
    hide Reconnect, Resumes, Elapsed;
    if op.OpReconnect? { ReconnectAnswers(s, op.n); }
  }

  /** A reconnect reports success exactly when the client is connected and whatever was stored could be printed. */
  lemma ReconnectCode(s: State, n: ReconnectAnswer)
    requires SlotsAgree(s)
    ensures Step(s, OpReconnect(n)).rc == ZSUCCESS <==> s.phase == Connected || (Resumes(s, n) && Prints(s, n))
  {
    hide Reconnect, Resumes, Prints;
    ReconnectAnswers(s, n);
  }

  /** What publishing and subscribing report: the answer while connected, failure otherwise. */
  lemma StepCode(s: State, op: Op)
    requires SlotsAgree(s)
    ensures s.phase == Uninitialized && !op.OpDisconnect? ==> Step(s, op) == Outcome(s, NOT_INITIALIZED, [])
    ensures op.OpPublish? || (op.OpEvent? && op.payload.Some?) || (op.OpSubscribe? && op.handler.Some?) ==>
              (s.phase == Connected ==> Step(s, op).rc == op.a.rc) && (CanConnect(s) ==> Step(s, op).rc == ZFAILURE)
    ensures op.OpAck? && s.phase != Uninitialized ==> Step(s, op).rc == if op.payload.Some? then op.a.rc else ZFAILURE
  {
    hide Resumes, Attempts, Attempt;
  }

  /** Only an attempt changes the number of failures and the interval: a session resets both, a failure counts. */
  lemma StepRetries(s: State, op: Op)
    requires SlotsAgree(s)
    ensures var t := Step(s, op).state;
      if op.OpReconnect? && Attempts(s, op.n) then
        if Opens(op.n.connect) then t.retryCount == 0 && t.interval == MIN_RETRY_INTERVAL && t.startTime == 0
        else t.retryCount == s.retryCount + 1 && t.startTime == op.n.now2
      else t.retryCount == s.retryCount && t.interval == s.interval
  {
    hide Reconnect, Resumes, Attempts;
    if op.OpReconnect? { ReconnectAnswers(s, op.n); }
  }

  /** A handler is replaced by subscribing another one, whatever the broker answers, and never forgotten. */
  lemma StepHandlers(s: State, op: Op)
    requires SlotsAgree(s)
    ensures var t := Step(s, op).state;
      var registers := op.OpSubscribe? && op.handler.Some? && s.phase != Uninitialized;
      && t.commandHandler == (if registers && op.t == CommandTopic then op.handler else s.commandHandler)
      && t.configHandler == (if registers && op.t == ConfigTopic then op.handler else s.configHandler)
  {
    hide Reconnect, Resumes, Attempts;
    if op.OpReconnect? { ReconnectAnswers(s, op.n); }
  }
}
