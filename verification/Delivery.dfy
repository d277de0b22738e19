/** What the gateway promises a client that reconnects: no message is lost. */
module Delivery {
  import opened Domain
  import opened Messages
  import opened Gateway
  import opened GatewayInvariant

  ghost predicate GotLive(outbox: seq<Emission>, k: SocketId, m: Message) {
    exists i :: 0 <= i < |outbox| && outbox[i] == Live(k, m)
  }

  ghost predicate GotRecovered(outbox: seq<Emission>, k: SocketId, m: Message) {
    exists i :: 0 <= i < |outbox| && outbox[i].Recovered? && outbox[i].socket == k
                && m in outbox[i].messages
  }

  ghost predicate Got(outbox: seq<Emission>, k: SocketId, m: Message) {
    GotLive(outbox, k, m) || GotRecovered(outbox, k, m)
  }

  /** The send that stored the row has yet to look up the recipient's socket. */
  predicate OnItsWay(phase: Phase, m: Message) { phase == Stored(m) || phase == Pointed(m) }

  ghost predicate InFlight(sends: Sends, m: Message) {
    exists t :: t in sends && OnItsWay(sends[t].phase, m)
  }

  /** The send threw between storing its row and emitting it. */
  ghost predicate LostAfterStore(sends: Sends, m: Message) {
    exists t :: t in sends && sends[t].phase == Lost(m)
  }

  predicate Missing(c: ConnectTask, m: Message) {
    m.directChatId == c.chat && m.recipientId == c.user && m.id > c.offset
  }

  /** Where a row that a reconnecting client misses is accounted for. */
  ghost predicate Covered(outbox: seq<Emission>, sends: Sends, phase: ConnectPhase, k: SocketId, m: Message) {
    || phase.Closed? || phase.Querying? || (phase.Fetched? && m in phase.messages)
    || Got(outbox, k, m) || InFlight(sends, m) || LostAfterStore(sends, m)
  }

  ghost predicate AllCovered(s: State, k: SocketId) {
    k in s.connects
    && forall m :: m in s.rows && Missing(s.connects[k], m) ==>
         Covered(s.outbox, s.sends, s.connects[k].phase, k, m)
  }

  /** The client's socket is the one registered, and every row it misses is accounted for. */
  ghost predicate Attended(s: State, k: SocketId) {
    && AllCovered(s, k)
    && s.connects[k].user in s.connected && s.connected[s.connects[k].user] == k
  }

  /** Steps that replace or remove a user's registered socket. */
  predicate Displaces(step: Step, user: UserId) {
    (step.Disconnect? && step.user == user) || (step.Connect? && step.user == user)
  }

  lemma OutboxKeeps(outbox: seq<Emission>, more: seq<Emission>, k: SocketId, m: Message)
    requires outbox <= more
    ensures GotLive(outbox, k, m) ==> GotLive(more, k, m)
    ensures GotRecovered(outbox, k, m) ==> GotRecovered(more, k, m)
  {
    if GotLive(outbox, k, m) {
      var i :| 0 <= i < |outbox| && outbox[i] == Live(k, m);
      assert more[i] == Live(k, m);
    }
    if GotRecovered(outbox, k, m) {
      var i :| 0 <= i < |outbox| && outbox[i].Recovered? && outbox[i].socket == k
               && m in outbox[i].messages;
      assert more[i] == outbox[i];
    }
  }

  lemma CoveredEmits(outbox: seq<Emission>, more: seq<Emission>, sends: Sends, phase: ConnectPhase,
                     k: SocketId, m: Message)
    requires Covered(outbox, sends, phase, k, m) && outbox <= more
    ensures Covered(more, sends, phase, k, m)
  {
    OutboxKeeps(outbox, more, k, m);
  }

  /** A send goes on: what covered the row still does, unless this was the send that had it in
      flight and now neither has it, nor lost it, nor emitted it. */
  lemma CoveredMoves(outbox: seq<Emission>, sends: Sends, phase: ConnectPhase, k: SocketId, m: Message,
                     t: TaskId, task: SendTask)
    requires Covered(outbox, sends, phase, k, m)
    requires t in sends && OnItsWay(sends[t].phase, m) ==>
               OnItsWay(task.phase, m) || task.phase == Lost(m) || Got(outbox, k, m)
    requires t in sends ==> !sends[t].phase.Lost?
    ensures Covered(outbox, sends[t := task], phase, k, m)
  {
    var after := sends[t := task];
    if InFlight(sends, m) {
      var u :| u in sends && OnItsWay(sends[u].phase, m);
      if u != t {
        assert u in after && OnItsWay(after[u].phase, m);
      } else {
        assert after[t].phase == task.phase;
      }
    }
    if LostAfterStore(sends, m) {
      var u :| u in sends && sends[u].phase == Lost(m);
      assert u in after && after[u].phase == Lost(m);
    }
  }

  ghost predicate SendsSound(s: State) {
    TasksSound(s.sends, s.tokens.log, s.requests.requests, s.rows)
  }

  lemma CoveredToPhase(s: State, t: TaskId, phase: Phase, ticket: int, k: SocketId, m: Message)
    requires k in s.connects && Covered(s.outbox, s.sends, s.connects[k].phase, k, m)
    requires t in s.sends && !Finished(s.sends[t].phase)
    requires OnItsWay(s.sends[t].phase, m) ==> OnItsWay(phase, m) || phase == Lost(m)
    ensures Covered(s.outbox, s.sends[t := s.sends[t].(phase := phase, ticket := ticket)],
                    s.connects[k].phase, k, m)
  {
    CoveredMoves(s.outbox, s.sends, s.connects[k].phase, k, m, t,
                 s.sends[t].(phase := phase, ticket := ticket));
  }

  lemma StepAllCoveredMove(s: State, step: Step, t: TaskId, k: SocketId, m: Message)
    requires Enabled(s, step)
    requires step in {CheckUnique(t), CheckFriendship(t), AddLastSent(t), SendFails(t)}
    requires k in s.connects && Covered(s.outbox, s.sends, s.connects[k].phase, k, m)
    ensures var s' := Apply(s, step);
            && s'.outbox == s.outbox && s'.connects == s.connects
            && Covered(s.outbox, s'.sends, s.connects[k].phase, k, m)
  {
    var task := Apply(s, step).sends[t];
    CoveredToPhase(s, t, task.phase, task.ticket, k, m);
  }

  lemma StepAllCoveredStore(s: State, t: TaskId, k: SocketId, m: Message)
    requires Enabled(s, CreateMessage(t)) && AllCovered(s, k)
    requires m in DoCreateMessage(s, t).rows && Missing(s.connects[k], m)
    ensures Covered(s.outbox, DoCreateMessage(s, t).sends, s.connects[k].phase, k, m)
  {
    var s' := DoCreateMessage(s, t);
    if m in s.rows {
      CoveredMoves(s.outbox, s.sends, s.connects[k].phase, k, m, t, s'.sends[t]);
    } else {
      assert s'.sends[t].phase == Stored(m);
      assert InFlight(s'.sends, m);
    }
  }

  lemma StepAllCoveredEmit(s: State, t: TaskId, k: SocketId, m: Message)
    requires SendsSound(s) && Enabled(s, EmitMessage(t)) && Attended(s, k)
    requires m in s.rows && Missing(s.connects[k], m)
    ensures var s' := DoEmitMessage(s, t);
            Covered(s'.outbox, s'.sends, s.connects[k].phase, k, m)
  {
    var s' := DoEmitMessage(s, t);
    var task := s.sends[t];
    assert TaskSound(task, s.tokens.log, s.requests.requests, s.rows);
    CoveredEmits(s.outbox, s'.outbox, s.sends, s.connects[k].phase, k, m);
    if OnItsWay(task.phase, m) {
      assert task.payload.receiverId == s.connects[k].user;
      assert s'.outbox[|s.outbox|] == Live(k, m);
    }
    CoveredMoves(s'.outbox, s.sends, s.connects[k].phase, k, m, t, s'.sends[t]);
  }

  lemma StepAllCoveredRecovery(s: State, step: Step, k: SocketId, m: Message)
    requires Ascending(s.rows) && Enabled(s, step) && AllCovered(s, k)
    requires step in {Query(k), Recover(k), ConnectFails(k)}
    requires m in s.rows && Missing(s.connects[k], m)
    ensures var s' := Apply(s, step);
            Covered(s'.outbox, s'.sends, s'.connects[k].phase, k, m)
  {
    var s' := Apply(s, step);
    NewerMembers(s.rows, s.connects[k].chat, s.connects[k].offset);
    OutboxKeeps(s.outbox, s'.outbox, k, m);
    if step == Recover(k) && m in s.connects[k].phase.messages {
      assert s'.outbox[|s.outbox|] == Recovered(k, s.connects[k].phase.messages);
    }
  }

  /** Registration before the query, and the lookup after the insert: no step loses a row. */
  lemma StepAttended(s: State, step: Step, k: SocketId)
    requires SendsSound(s) && Ascending(s.rows) && Enabled(s, step) && Attended(s, k)
    requires !Displaces(step, s.connects[k].user)
    ensures Attended(Apply(s, step), k)
    ensures var c, c' := s.connects[k], Apply(s, step).connects[k];
            c'.user == c.user && c'.chat == c.chat && c'.offset == c.offset
  {
    ConnectionKept(s, step, k);
    var s' := Apply(s, step);
    forall m | m in s'.rows && Missing(s.connects[k], m)
      ensures Covered(s'.outbox, s'.sends, s'.connects[k].phase, k, m)
    {
      StepCovered(s, step, k, m);
    }
  }

  lemma ConnectionKept(s: State, step: Step, k: SocketId)
    requires Enabled(s, step) && k in s.connects && !Displaces(step, s.connects[k].user)
    ensures var s' := Apply(s, step);
            && k in s'.connects
            && (var c, c' := s.connects[k], s'.connects[k];
                c'.user == c.user && c'.chat == c.chat && c'.offset == c.offset)
            && (s.connects[k].user in s.connected ==>
                  s.connects[k].user in s'.connected
                  && s'.connected[s.connects[k].user] == s.connected[s.connects[k].user])
  {
    if IsSendStep(step) {
      SendStepFrame(s, step);
    }
  }

  lemma StepCovered(s: State, step: Step, k: SocketId, m: Message)
    requires SendsSound(s) && Ascending(s.rows) && Enabled(s, step) && Attended(s, k)
    requires m in Apply(s, step).rows && Missing(s.connects[k], m)
    ensures var s' := Apply(s, step);
            k in s'.connects && Covered(s'.outbox, s'.sends, s'.connects[k].phase, k, m)
  {
    if IsSendStep(step) {
      StepCoveredSend(s, step, k, m);
    } else if step in {Query(k), Recover(k), ConnectFails(k)} {
      StepAllCoveredRecovery(s, step, k, m);
    } else {
      SendsUntouched(s, step, k);
      CoveredEmits(s.outbox, Apply(s, step).outbox, s.sends, s.connects[k].phase, k, m);
    }
  }

  lemma StepCoveredSend(s: State, step: Step, k: SocketId, m: Message)
    requires SendsSound(s) && Enabled(s, step) && Attended(s, k) && IsSendStep(step)
    requires m in Apply(s, step).rows && Missing(s.connects[k], m)
    ensures var s' := Apply(s, step);
            s'.connects == s.connects && Covered(s'.outbox, s'.sends, s.connects[k].phase, k, m)
  {
    match step {
      case CheckUnique(t) => StepAllCoveredMove(s, step, t, k, m);
      case CheckFriendship(t) => StepAllCoveredMove(s, step, t, k, m);
      case AddLastSent(t) => StepAllCoveredMove(s, step, t, k, m);
      case SendFails(t) => StepAllCoveredMove(s, step, t, k, m);
      case CreateMessage(t) => StepAllCoveredStore(s, t, k, m);
      case EmitMessage(t) => StepAllCoveredEmit(s, t, k, m);
      case SendArrives(t, _, _, _) =>
        CoveredMoves(s.outbox, s.sends, s.connects[k].phase, k, m, t, Apply(s, step).sends[t]);
    }
  }

  lemma SendsUntouched(s: State, step: Step, k: SocketId)
    requires Enabled(s, step) && k in s.connects
    requires !IsSendStep(step) && step !in {Query(k), Recover(k), ConnectFails(k)}
    ensures var s' := Apply(s, step);
            && s'.sends == s.sends && s'.rows == s.rows && s.outbox <= s'.outbox
            && k in s'.connects && s'.connects[k] == s.connects[k]
  {
  }

  lemma {:induction false} RunAttended(s: State, steps: seq<Step>, k: SocketId)
    requires Invariant(s) && ValidRun(s, steps) && Attended(s, k)
    requires forall i :: 0 <= i < |steps| ==> !Displaces(steps[i], s.connects[k].user)
    ensures Attended(Run(s, steps), k)
    ensures var c, c' := s.connects[k], Run(s, steps).connects[k];
            c'.user == c.user && c'.chat == c.chat && c'.offset == c.offset
    decreases |steps|
  {
    if steps != [] {
      StepInvariant(s, steps[0]);
      StepAttended(s, steps[0], k);
      RunAttended(Apply(s, steps[0]), steps[1..], k);
    }
  }

  /** A run that ends with this connection being made. */
  ghost predicate Reconnects(w: World, before: seq<Step>,
                             k: SocketId, u: UserId, offset: MessageId, chat: ChatId, after: seq<Step>)
  {
    && ValidRun(Initial(w), before)
    && var s := Run(Initial(w), before);
       k !in s.connects && ValidRun(DoConnect(s, k, u, offset, chat), after)
  }

  ghost function AfterReconnect(w: World, before: seq<Step>,
                                k: SocketId, u: UserId, offset: MessageId, chat: ChatId,
                                after: seq<Step>): State
    requires Reconnects(w, before, k, u, offset, chat, after)
  {
    Run(DoConnect(Run(Initial(w), before), k, u, offset, chat), after)
  }

  /** No message is lost on reconnect. In every interleaving of any sends, timers, friend calls and
      other connections with one connection that asks for what is newer than an offset in a chat:
      once the connection is through, and if the user's socket was not replaced or removed
      meanwhile, every row of the chat addressed to the user above the offset, stored before or after
      and no longer on its way, was emitted to that socket, by recovery or live, unless its own send
      threw after storing it or the connection's query threw. */
  lemma NoMessageLost(w: World, before: seq<Step>, k: SocketId, u: UserId, offset: MessageId,
                      chat: ChatId, after: seq<Step>, m: Message)
    requires offset != 0 && chat != 0
    requires Reconnects(w, before, k, u, offset, chat, after)
    requires forall i :: 0 <= i < |after| ==> !Displaces(after[i], u)
    requires var s := AfterReconnect(w, before, k, u, offset, chat, after);
             && m in s.rows && m.directChatId == chat && m.recipientId == u && m.id > offset
             && !InFlight(s.sends, m)
             && (k in s.connects ==> s.connects[k].phase in {Connected, Closed})
    ensures var s := AfterReconnect(w, before, k, u, offset, chat, after);
            && k in s.connects
            && (Got(s.outbox, k, m) || LostAfterStore(s.sends, m) || s.connects[k].phase == Closed)
  {
    InitialInvariant(w);
    RunInvariant(Initial(w), before);
    var s0 := Run(Initial(w), before);
    var s1 := DoConnect(s0, k, u, offset, chat);
    StepConnect(s0, k, u, offset, chat);
    assert Attended(s1, k);
    RunAttended(s1, after, k);
    var s := Run(s1, after);
    assert Missing(s.connects[k], m);
    assert Covered(s.outbox, s.sends, s.connects[k].phase, k, m);
  }
}
