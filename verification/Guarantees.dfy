/** Further promises of the gateway over whole runs: emissions, tokens, friends, and whose message a
    chat's last sent one is. */
module Guarantees {
  import opened Domain
  import opened Wrappers
  import opened Messages
  import opened DirectChats
  import opened Gateway
  import opened GatewayInvariant
  import opened Delivery
  import Requests = FriendRequests
  import Tokens = MessageTokens

  lemma Reachable(w: World, steps: seq<Step>)
    requires ValidRun(Initial(w), steps)
    ensures Invariant(Run(Initial(w), steps))
  {
    InitialInvariant(w);
    RunInvariant(Initial(w), steps);
  }

  // ----- emissions

  /** Over every run a message is emitted live at most once, and a socket gets at most one recovery,
      which lists no message twice. */
  lemma EmittedOnce(w: World, steps: seq<Step>, i: nat, j: nat)
    requires ValidRun(Initial(w), steps)
    requires i < j < |Run(Initial(w), steps).outbox|
    ensures var outbox := Run(Initial(w), steps).outbox;
            && (outbox[i].Live? && outbox[j].Live? ==> outbox[i].message != outbox[j].message)
            && (outbox[i].Recovered? && outbox[j].Recovered? ==> outbox[i].socket != outbox[j].socket)
            && (outbox[i].Recovered? ==> Ascending(outbox[i].messages))
  {
    Reachable(w, steps);
  }

  predicate InRange(c: ConnectTask, m: Message) {
    m.directChatId == c.chat && m.id > c.offset
  }

  /** Whether the connection asks for what it missed: both arguments have to be truthy. */
  predicate Asks(c: ConnectTask) { c.offset != 0 && c.chat != 0 }

  /** A row whose send was done before the connection can reach its socket by recovery only. */
  ghost predicate ByRecoveryOnly(s: State, k: SocketId, t: TaskId, m: Message) {
    && k in s.connects && IsDone(s.sends, t, m) && m in s.rows
    && !GotLive(s.outbox, k, m)
    && var c := s.connects[k];
       match c.phase
       case Querying => Asks(c) && !GotRecovered(s.outbox, k, m)
       case Fetched(messages) =>
         Asks(c) && !GotRecovered(s.outbox, k, m) && (m in messages <==> InRange(c, m))
       case Connected => GotRecovered(s.outbox, k, m) <==> Asks(c) && InRange(c, m)
       case Closed => true
  }

  /** Emissions other than a recovery to this socket or this message live do not matter. */
  lemma OtherEmission(outbox: seq<Emission>, e: Emission, k: SocketId, m: Message)
    requires e.Live? ==> e.message != m
    requires e.Recovered? ==> e.socket != k
    ensures GotLive(outbox + [e], k, m) <==> GotLive(outbox, k, m)
    ensures GotRecovered(outbox + [e], k, m) <==> GotRecovered(outbox, k, m)
  {
    OutboxKeeps(outbox, outbox + [e], k, m);
  }

  lemma EmitKeepsRecoveryOnly(s: State, t: TaskId, k: SocketId, u: TaskId, m: Message)
    requires HeldApart(s.sends) && Enabled(s, EmitMessage(t)) && ByRecoveryOnly(s, k, u, m)
    ensures ByRecoveryOnly(DoEmitMessage(s, t), k, u, m)
  {
    var task := s.sends[t];
    var n := task.phase.message;
    assert Holds(s.sends, t, n) && Holds(s.sends, u, m);
    if task.payload.receiverId in s.connected {
      var e := Live(s.connected[task.payload.receiverId], n);
      OtherEmission(s.outbox, e, k, m);
      OtherEmission(s.outbox + [e], Echo(task.socket, n), k, m);
    } else {
      assert s.outbox + [] == s.outbox;
      OtherEmission(s.outbox, Echo(task.socket, n), k, m);
    }
  }

  lemma RecoverKeepsRecoveryOnly(s: State, j: SocketId, k: SocketId, u: TaskId, m: Message)
    requires Enabled(s, Recover(j)) && ByRecoveryOnly(s, k, u, m)
    ensures ByRecoveryOnly(DoRecover(s, j), k, u, m)
  {
    var messages := s.connects[j].phase.messages;
    if messages == [] {
      assert s.outbox + [] == s.outbox;
    } else if j != k {
      OtherEmission(s.outbox, Recovered(j, messages), k, m);
    } else {
      var after := s.outbox + [Recovered(j, messages)];
      assert after[|s.outbox|] == Recovered(j, messages);
      assert forall i :: 0 <= i < |s.outbox| ==> after[i] == s.outbox[i];
    }
  }

  ghost predicate OneQuietMore(outbox: seq<Emission>, more: seq<Emission>) {
    more == outbox || exists e :: more == outbox + [e] && !e.Live? && !e.Recovered?
  }

  /** The emissions and the connection are untouched, and a done send stays done. */
  lemma QuietKeepsRecoveryOnly(s: State, s': State, k: SocketId, u: TaskId, m: Message)
    requires ByRecoveryOnly(s, k, u, m)
    requires k in s'.connects && s'.connects[k] == s.connects[k]
    requires OneQuietMore(s.outbox, s'.outbox)
    requires s.rows <= s'.rows && IsDone(s'.sends, u, m)
    ensures ByRecoveryOnly(s', k, u, m)
  {
    if s'.outbox != s.outbox {
      var e :| s'.outbox == s.outbox + [e] && !e.Live? && !e.Recovered?;
      OtherEmission(s.outbox, e, k, m);
    }
  }

  predicate IsQuiet(step: Step, k: SocketId) {
    !step.EmitMessage? && !step.Recover? && step != Query(k) && step != ConnectFails(k)
  }

  lemma QuietStep(s: State, step: Step, k: SocketId, u: TaskId, m: Message)
    requires Enabled(s, step) && k in s.connects && IsDone(s.sends, u, m) && IsQuiet(step, k)
    ensures var s' := Apply(s, step);
            && k in s'.connects && s'.connects[k] == s.connects[k]
            && OneQuietMore(s.outbox, s'.outbox)
            && s.rows <= s'.rows && IsDone(s'.sends, u, m)
  {
    if IsSendStep(step) {
      SendStepFrame(s, step);
    } else {
      QuietOther(s, step, k);
    }
  }

  lemma QuietOther(s: State, step: Step, k: SocketId)
    requires Enabled(s, step) && k in s.connects && !IsSendStep(step) && IsQuiet(step, k)
    ensures var s' := Apply(s, step);
            && k in s'.connects && s'.connects[k] == s.connects[k]
            && OneQuietMore(s.outbox, s'.outbox)
            && s.rows == s'.rows && s'.sends == s.sends
  {
  }

  lemma StepRecoveryOnly(s: State, step: Step, k: SocketId, u: TaskId, m: Message)
    requires HeldApart(s.sends) && Ascending(s.rows) && Enabled(s, step)
    requires ByRecoveryOnly(s, k, u, m)
    ensures ByRecoveryOnly(Apply(s, step), k, u, m)
  {
    if IsQuiet(step, k) {
      QuietStep(s, step, k, u, m);
      QuietKeepsRecoveryOnly(s, Apply(s, step), k, u, m);
    } else if step.EmitMessage? {
      EmitKeepsRecoveryOnly(s, step.task, k, u, m);
    } else if step.Recover? {
      RecoverKeepsRecoveryOnly(s, step.socket, k, u, m);
    } else {
      NewerMembers(s.rows, s.connects[k].chat, s.connects[k].offset);
    }
  }

  lemma {:induction false} RunRecoveryOnly(s: State, steps: seq<Step>, k: SocketId, u: TaskId, m: Message)
    requires Invariant(s) && ValidRun(s, steps) && ByRecoveryOnly(s, k, u, m)
    ensures ByRecoveryOnly(Run(s, steps), k, u, m)
    ensures var c, c' := s.connects[k], Run(s, steps).connects[k];
            c'.chat == c.chat && c'.offset == c.offset
    decreases |steps|
  {
    if steps != [] {
      StepInvariant(s, steps[0]);
      StepRecoveryOnly(s, steps[0], k, u, m);
      ArgumentsKept(s, steps[0], k);
      RunRecoveryOnly(Apply(s, steps[0]), steps[1..], k, u, m);
    }
  }

  lemma ArgumentsKept(s: State, step: Step, k: SocketId)
    requires Enabled(s, step) && k in s.connects
    ensures var s' := Apply(s, step);
            && k in s'.connects
            && s'.connects[k].chat == s.connects[k].chat && s'.connects[k].offset == s.connects[k].offset
  {
    if IsSendStep(step) {
      SendStepFrame(s, step);
    }
  }

  /** A row whose send was done before a connection reaches the connection's socket, in any
      continuation in which the connection gets through, exactly when both connect arguments are
      truthy and the row lies in the chat above the offset. So a client that has no message yet,
      and gives offset 0, recovers nothing. */
  lemma EarlierRowsRecoveredExactly(w: World, before: seq<Step>, k: SocketId, u: UserId,
                                    offset: MessageId, chat: ChatId, after: seq<Step>, t: TaskId,
                                    m: Message)
    requires Reconnects(w, before, k, u, offset, chat, after)
    requires IsDone(Run(Initial(w), before).sends, t, m)
    requires var s := AfterReconnect(w, before, k, u, offset, chat, after);
             k in s.connects ==> s.connects[k].phase == Connected
    ensures var s := AfterReconnect(w, before, k, u, offset, chat, after);
            Got(s.outbox, k, m) <==>
            offset != 0 && chat != 0 && m.directChatId == chat && m.id > offset
  {
    Reachable(w, before);
    var s0 := Run(Initial(w), before);
    var s1 := DoConnect(s0, k, u, offset, chat);
    StepConnect(s0, k, u, offset, chat);
    HeldInRows(s0);
    assert Holds(s0.sends, t, m);
    assert !GotLive(s0.outbox, k, m) && !GotRecovered(s0.outbox, k, m);
    OtherEmission(s0.outbox, Greeting(k), k, m);
    assert ByRecoveryOnly(s1, k, t, m);
    RunRecoveryOnly(s1, after, k, t, m);
  }

  // ----- tokens

  /** Over every run, with timers firing, disconnects and any interleaving: every row was stored by a
      send of its own, and two rows of one user with the same token were accepted with a removal of
      that user's tokens or a fired timer of that token in between; and at least an hour apart, if
      the user's tokens were not removed all at once before the later one. */
  lemma RowsPerToken(w: World, steps: seq<Step>, m: Message, n: Message)
    requires ValidRun(Initial(w), steps)
    requires var s := Run(Initial(w), steps);
             m in s.rows && n in s.rows && m != n
    ensures var s := Run(Initial(w), steps);
            exists t, v :: Holds(s.sends, t, m) && Holds(s.sends, v, n)
              && m.authorId == s.sends[t].author && n.authorId == s.sends[v].author
              && (m.authorId == n.authorId && s.sends[t].payload.token == s.sends[v].payload.token ==>
                    AcceptedApart(s.tokens.log, s.sends[t], s.sends[v]))
  {
    Reachable(w, steps);
    var s := Run(Initial(w), steps);
    var t :| Holds(s.sends, t, m);
    var v :| Holds(s.sends, v, n);
    assert t != v;
    assert TaskSound(s.sends[t], s.tokens.log, s.requests.requests, s.rows);
    assert TaskSound(s.sends[v], s.tokens.log, s.requests.requests, s.rows);
    if m.authorId == n.authorId && s.sends[t].payload.token == s.sends[v].payload.token {
      SameTokenApart(s, t, v);
    }
  }

  ghost predicate AcceptedApart(log: seq<Tokens.Entry>, a: SendTask, b: SendTask) {
    var i, j := if a.ticket < b.ticket then a.ticket else b.ticket,
                if a.ticket < b.ticket then b.ticket else a.ticket;
    && Tokens.AcceptedAt(log, i, a.author, a.payload.token)
    && Tokens.AcceptedAt(log, j, a.author, a.payload.token)
    && i < j
    && Tokens.EndedBetween(log, i, j, a.author, a.payload.token)
    && (Tokens.UnclearedBefore(log, j, a.author) ==>
          log[j].at - log[i].at >= 60 * 60 * 1000)
  }

  lemma SameTokenApart(s: State, t: TaskId, v: TaskId)
    requires Invariant(s) && t in s.sends && v in s.sends && t != v
    requires Held(s.sends[t].phase).Some? && Held(s.sends[v].phase).Some?
    requires s.sends[t].author == s.sends[v].author
    requires s.sends[t].payload.token == s.sends[v].payload.token
    ensures AcceptedApart(s.tokens.log, s.sends[t], s.sends[v])
  {
    var a, b := s.sends[t], s.sends[v];
    assert TaskSound(a, s.tokens.log, s.requests.requests, s.rows);
    assert TaskSound(b, s.tokens.log, s.requests.requests, s.rows);
    assert a.ticket != b.ticket;
  }

  // ----- friends

  /** Over every run, in every state: the author and the recipient of a stored row differ, and there
      is a request between them. */
  lemma RowsBetweenFriends(w: World, steps: seq<Step>, m: Message)
    requires ValidRun(Initial(w), steps)
    requires m in Run(Initial(w), steps).rows
    ensures var requests := Run(Initial(w), steps).requests.requests;
            && m.authorId != m.recipientId
            && Requests.IsFriend(requests, m.authorId, m.recipientId)
            && Requests.IsFriend(requests, m.recipientId, m.authorId)
  {
    Reachable(w, steps);
    var s := Run(Initial(w), steps);
    var t :| Holds(s.sends, t, m);
    assert TaskSound(s.sends[t], s.tokens.log, s.requests.requests, s.rows);
    var requests := s.requests.requests;
    var i :| 0 <= i < |requests| && Requests.Connects(requests[i], m.authorId, m.recipientId);
    assert requests[i].sender != requests[i].recipient;
    Requests.IsFriendSymmetric(requests, m.authorId, m.recipientId);
  }

  // ----- the last sent message of a chat

  /** Over every run: a chat's last sent message is one of its own, no two chats share one, and the
      unique key never refuses the update. */
  lemma LastSentOwn(w: World, steps: seq<Step>)
    requires ValidRun(Initial(w), steps)
    ensures var s := Run(Initial(w), steps);
            && (forall c :: c in s.chats && s.chats[c].Some? ==>
                  exists m :: m in s.rows && m.id == s.chats[c].value && m.directChatId == c)
            && (forall c, d :: c in s.chats && d in s.chats && c != d && s.chats[c].Some? ==>
                  s.chats[c] != s.chats[d])
            && (forall t :: Enabled(s, AddLastSent(t)) ==>
                  !LastSentTaken(s.chats, s.sends[t].phase.message.directChatId, s.sends[t].phase.message.id))
  {
    Reachable(w, steps);
    var s := Run(Initial(w), steps);
    forall t | Enabled(s, AddLastSent(t))
      ensures !LastSentTaken(s.chats, s.sends[t].phase.message.directChatId, s.sends[t].phase.message.id)
    {
      NeverTaken(s, t);
    }
    forall c, d | c in s.chats && d in s.chats && c != d && s.chats[c].Some?
      ensures s.chats[c] != s.chats[d]
    {
      LastSentDiffer(s, c, d);
    }
  }

  lemma SameRow(rows: seq<Message>, m: Message, n: Message)
    requires Ascending(rows) && m in rows && n in rows && m.id == n.id
    ensures m == n
  {
    var i :| 0 <= i < |rows| && rows[i] == m;
    var j :| 0 <= j < |rows| && rows[j] == n;
    assert i < j ==> rows[i].id < rows[j].id;
    assert j < i ==> rows[j].id < rows[i].id;
  }

  lemma LastSentDiffer(s: State, c: ChatId, d: ChatId)
    requires Invariant(s) && c in s.chats && d in s.chats && c != d && s.chats[c].Some?
    ensures s.chats[c] != s.chats[d]
  {
    if s.chats[d].Some? {
      var m :| m in s.rows && m.id == s.chats[c].value && m.directChatId == c;
      var n :| n in s.rows && n.id == s.chats[d].value && n.directChatId == d;
      if m.id == n.id { SameRow(s.rows, m, n); }
    }
  }

  lemma NeverTaken(s: State, t: TaskId)
    requires Invariant(s) && Enabled(s, AddLastSent(t))
    ensures var m := s.sends[t].phase.message;
            m in s.rows && !LastSentTaken(s.chats, m.directChatId, m.id)
  {
    var m := s.sends[t].phase.message;
    assert TaskSound(s.sends[t], s.tokens.log, s.requests.requests, s.rows);
    forall c | c in s.chats && c != m.directChatId ensures s.chats[c] != Some(m.id) {
      if s.chats[c].Some? {
        var n :| n in s.rows && n.id == s.chats[c].value && n.directChatId == c;
        if n.id == m.id { SameRow(s.rows, m, n); }
      }
    }
  }
}
