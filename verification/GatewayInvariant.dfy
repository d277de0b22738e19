/** What holds of the gateway in every reachable state. */
module GatewayInvariant {
  import opened Domain
  import opened Wrappers
  import opened Messages
  import opened DirectChats
  import opened Gateway
  import Requests = FriendRequests
  import Tokens = MessageTokens
  import Typing

  type Sends = map<TaskId, SendTask>
  type Connects = map<SocketId, ConnectTask>

  // ----- the parts

  ghost predicate RowsSound(rows: seq<Message>, nextId: MessageId) {
    Ascending(rows) && forall m :: m in rows ==> m.id < nextId
  }

  ghost predicate Holds(sends: Sends, t: TaskId, m: Message) {
    t in sends && Held(sends[t].phase) == Some(m)
  }

  /** A send past the token check has an acceptance in the log; past the friend check there is a
      request between the two users; and the row it holds is in the table and is its own. */
  ghost predicate TaskSound(k: SendTask, log: seq<Tokens.Entry>, requests: seq<Requests.Request>,
                            rows: seq<Message>) {
    && (k.ticket >= 0 ==> Tokens.AcceptedAt(log, k.ticket, k.author, k.payload.token))
    && (k.phase.TokenTaken? || k.phase.Vetted? || Held(k.phase).Some? ==> k.ticket >= 0)
    && (k.phase.Vetted? || Held(k.phase).Some? ==>
          Requests.IsFriend(requests, k.author, k.payload.receiverId))
    && (Held(k.phase).Some? ==>
          var m := Held(k.phase).value;
          m in rows && m == RowOf(m.id, k.author, k.payload))
  }

  ghost predicate TasksSound(sends: Sends, log: seq<Tokens.Entry>, requests: seq<Requests.Request>,
                             rows: seq<Message>) {
    forall t :: t in sends ==> TaskSound(sends[t], log, requests, rows)
  }

  /** No two sends share an acceptance. */
  ghost predicate TicketsApart(sends: Sends) {
    forall t, u :: t in sends && u in sends && sends[t].ticket == sends[u].ticket >= 0 ==> t == u
  }

  /** No two sends share a row. */
  ghost predicate HeldApart(sends: Sends) {
    forall t, u, m :: Holds(sends, t, m) && Holds(sends, u, m) ==> t == u
  }

  ghost predicate RowsHeld(rows: seq<Message>, sends: Sends) {
    forall m :: m in rows ==> exists t :: Holds(sends, t, m)
  }

  /** A chat's last sent message is one of that chat. */
  ghost predicate OwnLastSent(chats: map<ChatId, Option<MessageId>>, rows: seq<Message>) {
    forall c :: c in chats && chats[c].Some? ==>
      exists m :: m in rows && m.id == chats[c].value && m.directChatId == c
  }

  /** Messages go out only on sockets that have connected. */
  ghost predicate SocketsKnown(connected: map<UserId, SocketId>, sockets: set<SocketId>) {
    forall u :: u in connected ==> connected[u] in sockets
  }

  ghost predicate OutboxKnown(outbox: seq<Emission>, sockets: set<SocketId>) {
    forall i :: 0 <= i < |outbox| && (outbox[i].Live? || outbox[i].Recovered?) ==>
      outbox[i].socket in sockets
  }

  ghost predicate IsDone(sends: Sends, t: TaskId, m: Message) {
    t in sends && sends[t].phase == Done(m)
  }

  /** A live emission belongs to a send that is done. */
  ghost predicate LiveDone(outbox: seq<Emission>, sends: Sends) {
    forall i :: 0 <= i < |outbox| && outbox[i].Live? ==>
      exists t :: IsDone(sends, t, outbox[i].message)
  }

  /** There is one live emission per message. */
  ghost predicate LiveOnce(outbox: seq<Emission>) {
    forall i, j :: 0 <= i < j < |outbox| && outbox[i].Live? && outbox[j].Live? ==>
      outbox[i].message != outbox[j].message
  }

  ghost predicate FetchedSound(connects: Connects) {
    forall k :: k in connects && connects[k].phase.Fetched? ==> Ascending(connects[k].phase.messages)
  }

  /** A recovery is emitted by a connection that is through, and lists no message twice. */
  ghost predicate RecoveredSound(outbox: seq<Emission>, connects: Connects) {
    forall i :: 0 <= i < |outbox| && outbox[i].Recovered? ==>
      && outbox[i].socket in connects && connects[outbox[i].socket].phase.Connected?
      && Ascending(outbox[i].messages)
  }

  /** There is one recovery per socket. */
  ghost predicate RecoveredOnce(outbox: seq<Emission>) {
    forall i, j :: 0 <= i < j < |outbox| && outbox[i].Recovered? && outbox[j].Recovered? ==>
      outbox[i].socket != outbox[j].socket
  }

  ghost predicate TablesInvariant(s: State) {
    && Requests.Consistent(s.requests)
    && Tokens.Invariant(s.tokens)
    && Typing.Invariant(s.typing)
    && RowsSound(s.rows, s.nextId)
    && OwnLastSent(s.chats, s.rows)
  }

  ghost predicate SendsInvariant(s: State) {
    && TasksSound(s.sends, s.tokens.log, s.requests.requests, s.rows)
    && TicketsApart(s.sends)
    && HeldApart(s.sends)
    && RowsHeld(s.rows, s.sends)
  }

  ghost predicate OutboxInvariant(s: State) {
    && SocketsKnown(s.connected, s.connects.Keys)
    && OutboxKnown(s.outbox, s.connects.Keys)
    && LiveDone(s.outbox, s.sends)
    && LiveOnce(s.outbox)
    && FetchedSound(s.connects)
    && RecoveredSound(s.outbox, s.connects)
    && RecoveredOnce(s.outbox)
  }

  ghost predicate Invariant(s: State) {
    TablesInvariant(s) && SendsInvariant(s) && OutboxInvariant(s)
  }

  // ----- what a step can touch

  predicate IsSendStep(step: Step) {
    step.SendArrives? || step.CheckUnique? || step.CheckFriendship? || step.CreateMessage?
    || step.AddLastSent? || step.EmitMessage? || step.SendFails?
  }

  /** A step of a send moves that send alone, which was not finished. Only the insert adds a row, only
      the update changes a chat, and only the emission emits and finishes the send with success. */
  lemma SendStepFrame(s: State, step: Step)
    requires Enabled(s, step) && IsSendStep(step)
    ensures var s' := Apply(s, step);
            && s'.connects == s.connects && s'.connected == s.connected && s'.typing == s.typing
            && s'.stickers == s.stickers
            && step.task in s'.sends && s'.sends == s.sends[step.task := s'.sends[step.task]]
            && (step.task in s.sends ==> !Finished(s.sends[step.task].phase))
            && s.rows <= s'.rows && (!step.CreateMessage? ==> s'.rows == s.rows)
            && (!step.AddLastSent? ==> s'.chats == s.chats)
            && (!step.EmitMessage? ==> s'.outbox == s.outbox && !s'.sends[step.task].phase.Done?)
  {
    SendTablesFrame(s, step);
    SendMoves(s, step);
  }

  lemma SendTablesFrame(s: State, step: Step)
    requires Enabled(s, step) && IsSendStep(step)
    ensures var s' := Apply(s, step);
            && s'.connects == s.connects && s'.connected == s.connected && s'.typing == s.typing
            && s'.stickers == s.stickers
            && s.rows <= s'.rows && (!step.CreateMessage? ==> s'.rows == s.rows)
            && (!step.AddLastSent? ==> s'.chats == s.chats)
            && (!step.EmitMessage? ==> s'.outbox == s.outbox)
  {
    match step {
      case SendArrives(_, _, _, _) =>
      case CheckUnique(_) =>
      case CheckFriendship(_) =>
      case CreateMessage(_) =>
      case AddLastSent(_) =>
      case EmitMessage(_) =>
      case SendFails(_) =>
    }
  }

  lemma SendMoves(s: State, step: Step)
    requires Enabled(s, step) && IsSendStep(step)
    ensures var s' := Apply(s, step);
            && step.task in s'.sends && s'.sends == s.sends[step.task := s'.sends[step.task]]
            && (step.task in s.sends ==> !Finished(s.sends[step.task].phase))
            && (!step.EmitMessage? ==> !s'.sends[step.task].phase.Done?)
  {
    match step {
      case SendArrives(_, _, _, _) =>
      case CheckUnique(_) =>
      case CheckFriendship(_) =>
      case CreateMessage(_) =>
      case AddLastSent(_) =>
      case EmitMessage(_) =>
      case SendFails(_) =>
    }
  }

  /** Any other step leaves sends, rows and chats as they are. */
  lemma OtherStepFrame(s: State, step: Step)
    requires Enabled(s, step) && !IsSendStep(step)
    ensures var s' := Apply(s, step);
            && s'.sends == s.sends && s'.rows == s.rows && s'.chats == s.chats && s'.nextId == s.nextId
            && s'.stickers == s.stickers
  {
  }

  // ----- one part at a time

  lemma TaskUpdate(sends: Sends, t: TaskId, k: SendTask, log: seq<Tokens.Entry>,
                   requests: seq<Requests.Request>, rows: seq<Message>)
    requires TasksSound(sends, log, requests, rows) && TaskSound(k, log, requests, rows)
    ensures TasksSound(sends[t := k], log, requests, rows)
  {
  }

  lemma TasksGrow(sends: Sends, log: seq<Tokens.Entry>, log': seq<Tokens.Entry>,
                  requests: seq<Requests.Request>, rows: seq<Message>, rows': seq<Message>)
    requires TasksSound(sends, log, requests, rows)
    requires log <= log' && rows <= rows'
    ensures TasksSound(sends, log', requests, rows')
  {
    forall t | t in sends ensures TaskSound(sends[t], log', requests, rows') {
      assert TaskSound(sends[t], log, requests, rows);
    }
  }

  lemma TasksKeepFriends(sends: Sends, log: seq<Tokens.Entry>, before: Requests.Tables,
                         after: Requests.Tables, rows: seq<Message>)
    requires TasksSound(sends, log, before.requests, rows) && Requests.Continues(before, after)
    ensures TasksSound(sends, log, after.requests, rows)
  {
    forall t | t in sends ensures TaskSound(sends[t], log, after.requests, rows) {
      var k := sends[t];
      assert TaskSound(k, log, before.requests, rows);
      if k.phase.Vetted? || Held(k.phase).Some? {
        Requests.ContinuesKeepsFriends(before, after, k.author, k.payload.receiverId);
      }
    }
  }

  /** A send that goes on keeps its ticket and the row it holds, if any. */
  lemma SameHold(sends: Sends, t: TaskId, k: SendTask, rows: seq<Message>, outbox: seq<Emission>)
    requires TicketsApart(sends) && HeldApart(sends) && RowsHeld(rows, sends) && LiveDone(outbox, sends)
    requires t in sends && !sends[t].phase.Done?
    requires k.ticket == sends[t].ticket && Held(k.phase) == Held(sends[t].phase)
    ensures var after := sends[t := k];
            TicketsApart(after) && HeldApart(after) && RowsHeld(rows, after) && LiveDone(outbox, after)
  {
    var after := sends[t := k];
    assert forall u, m :: Holds(after, u, m) <==> Holds(sends, u, m);
    forall m | m in rows ensures exists u :: Holds(after, u, m) {
      var u :| Holds(sends, u, m);
      assert Holds(after, u, m);
    }
    LiveKept(sends, t, k, outbox);
  }

  lemma LiveKept(sends: Sends, t: TaskId, k: SendTask, outbox: seq<Emission>)
    requires LiveDone(outbox, sends) && (t in sends ==> !sends[t].phase.Done?)
    ensures LiveDone(outbox, sends[t := k])
  {
    var after := sends[t := k];
    forall i | 0 <= i < |outbox| && outbox[i].Live?
      ensures exists u :: IsDone(after, u, outbox[i].message)
    {
      var u :| IsDone(sends, u, outbox[i].message);
      assert IsDone(after, u, outbox[i].message);
    }
  }

  /** A send that holds nothing yet may take a ticket that nobody has. */
  lemma NewTicket(sends: Sends, t: TaskId, k: SendTask, rows: seq<Message>, outbox: seq<Emission>)
    requires TicketsApart(sends) && HeldApart(sends) && RowsHeld(rows, sends) && LiveDone(outbox, sends)
    requires t in sends ==> Held(sends[t].phase) == None
    requires Held(k.phase) == None
    requires k.ticket < 0 || forall u :: u in sends ==> sends[u].ticket < k.ticket
    ensures var after := sends[t := k];
            TicketsApart(after) && HeldApart(after) && RowsHeld(rows, after) && LiveDone(outbox, after)
  {
    var after := sends[t := k];
    assert forall u, m :: Holds(after, u, m) <==> Holds(sends, u, m);
    forall m | m in rows ensures exists u :: Holds(after, u, m) {
      var u :| Holds(sends, u, m);
      assert Holds(after, u, m);
    }
    LiveKept(sends, t, k, outbox);
  }

  /** A send that holds nothing yet may take a new row. */
  lemma NewHold(sends: Sends, t: TaskId, k: SendTask, rows: seq<Message>, m: Message, outbox: seq<Emission>)
    requires TicketsApart(sends) && HeldApart(sends) && RowsHeld(rows, sends) && LiveDone(outbox, sends)
    requires t in sends && Held(sends[t].phase) == None
    requires k.ticket == sends[t].ticket && Held(k.phase) == Some(m)
    requires forall u :: !Holds(sends, u, m)
    ensures var after := sends[t := k];
            TicketsApart(after) && HeldApart(after) && RowsHeld(rows + [m], after)
            && LiveDone(outbox, after)
  {
    var after := sends[t := k];
    assert forall u, n :: Holds(after, u, n) <==> Holds(sends, u, n) || (u == t && n == m);
    forall n | n in rows + [m] ensures exists u :: Holds(after, u, n) {
      if n == m {
        assert Holds(after, t, n);
      } else {
        var u :| Holds(sends, u, n);
        assert Holds(after, u, n);
      }
    }
    LiveKept(sends, t, k, outbox);
  }

  /** Emissions that carry no message change nothing here. */
  ghost predicate OutboxSound(outbox: seq<Emission>, sends: Sends, connects: Connects) {
    && OutboxKnown(outbox, connects.Keys) && LiveDone(outbox, sends) && LiveOnce(outbox)
    && RecoveredSound(outbox, connects) && RecoveredOnce(outbox)
  }

  lemma EmitOther(outbox: seq<Emission>, e: Emission, sends: Sends, connects: Connects)
    requires OutboxSound(outbox, sends, connects) && !e.Live? && !e.Recovered?
    ensures OutboxSound(outbox + [e], sends, connects)
  {
  }

  lemma EmitLive(outbox: seq<Emission>, e: Emission, sends: Sends, connects: Connects, t: TaskId)
    requires OutboxSound(outbox, sends, connects)
    requires e.Live? && e.socket in connects && IsDone(sends, t, e.message)
    requires forall i :: 0 <= i < |outbox| && outbox[i].Live? ==> outbox[i].message != e.message
    ensures OutboxSound(outbox + [e], sends, connects)
  {
  }

  lemma EmitRecovered(outbox: seq<Emission>, e: Emission, sends: Sends, connects: Connects)
    requires OutboxSound(outbox, sends, connects)
    requires e.Recovered? && Ascending(e.messages)
    requires e.socket in connects && connects[e.socket].phase.Connected?
    requires forall i :: 0 <= i < |outbox| && outbox[i].Recovered? ==> outbox[i].socket != e.socket
    ensures OutboxSound(outbox + [e], sends, connects)
  {
  }

  /** A connection that has not recovered anything may change its phase, and a new one may join. */
  lemma ConnectMoves(outbox: seq<Emission>, sends: Sends, connects: Connects, k: SocketId, c: ConnectTask)
    requires OutboxSound(outbox, sends, connects) && FetchedSound(connects)
    requires k in connects ==> !connects[k].phase.Connected?
    requires c.phase.Fetched? ==> Ascending(c.phase.messages)
    ensures OutboxSound(outbox, sends, connects[k := c]) && FetchedSound(connects[k := c])
  {
  }

  // ----- every step of a send keeps the invariant

  lemma StepSendArrives(s: State, t: TaskId, socket: SocketId, author: UserId, payload: Payload)
    requires Invariant(s) && t !in s.sends
    ensures Invariant(Apply(s, SendArrives(t, socket, author, payload)))
  {
    var k := SendTask(socket, author, payload, Authenticated, -1);
    TaskUpdate(s.sends, t, k, s.tokens.log, s.requests.requests, s.rows);
    NewTicket(s.sends, t, k, s.rows, s.outbox);
  }

  /** Going on with the same ticket and row, if any. */
  lemma StepToPhase(s: State, t: TaskId, phase: Phase)
    requires Invariant(s) && t in s.sends && !s.sends[t].phase.Done?
    requires Held(phase) == Held(s.sends[t].phase)
    requires TaskSound(s.sends[t].(phase := phase), s.tokens.log, s.requests.requests, s.rows)
    ensures Invariant(ToPhase(s, t, phase))
  {
    var k := s.sends[t].(phase := phase);
    TaskUpdate(s.sends, t, k, s.tokens.log, s.requests.requests, s.rows);
    SameHold(s.sends, t, k, s.rows, s.outbox);
  }

  lemma StepCheckUnique(s: State, t: TaskId)
    requires Invariant(s) && Enabled(s, CheckUnique(t))
    ensures Invariant(DoCheckUnique(s, t))
  {
    var k := s.sends[t];
    var check := Tokens.Check(k.author, k.payload.token);
    assert TaskSound(k, s.tokens.log, s.requests.requests, s.rows);
    if k.payload.token in Tokens.ListOf(s.tokens.lists, k.author) {
      StepToPhase(s, t, Refused);
    } else {
      var k', tokens := k.(phase := TokenTaken, ticket := |s.tokens.log|), Tokens.Apply(s.tokens, check);
      Tokens.StepInvariant(s.tokens, check);
      TasksGrow(s.sends, s.tokens.log, tokens.log, s.requests.requests, s.rows, s.rows);
      TaskUpdate(s.sends, t, k', tokens.log, s.requests.requests, s.rows);
      TicketsInLog(s);
      NewTicket(s.sends, t, k', s.rows, s.outbox);
    }
  }

  lemma TicketsInLog(s: State)
    requires TasksSound(s.sends, s.tokens.log, s.requests.requests, s.rows)
    ensures forall u :: u in s.sends ==> s.sends[u].ticket < |s.tokens.log|
  {
    forall u | u in s.sends ensures s.sends[u].ticket < |s.tokens.log| {
      assert TaskSound(s.sends[u], s.tokens.log, s.requests.requests, s.rows);
    }
  }

  lemma StepCheckFriendship(s: State, t: TaskId)
    requires Invariant(s) && Enabled(s, CheckFriendship(t))
    ensures Invariant(DoCheckFriendship(s, t))
  {
    assert TaskSound(s.sends[t], s.tokens.log, s.requests.requests, s.rows);
    var friends := Requests.IsFriend(s.requests.requests, s.sends[t].author, s.sends[t].payload.receiverId);
    StepToPhase(s, t, if friends then Vetted else Refused);
  }

  lemma OwnLastSentGrow(chats: map<ChatId, Option<MessageId>>, rows: seq<Message>, rows': seq<Message>)
    requires OwnLastSent(chats, rows) && rows <= rows'
    ensures OwnLastSent(chats, rows')
  {
    forall c | c in chats && chats[c].Some?
      ensures exists m :: m in rows' && m.id == chats[c].value && m.directChatId == c
    {
      var m :| m in rows && m.id == chats[c].value && m.directChatId == c;
      assert m in rows';
    }
  }

  lemma HeldInRows(s: State)
    requires TasksSound(s.sends, s.tokens.log, s.requests.requests, s.rows)
    ensures forall u, m :: Holds(s.sends, u, m) ==> m in s.rows
  {
    forall u, m | Holds(s.sends, u, m) ensures m in s.rows {
      assert TaskSound(s.sends[u], s.tokens.log, s.requests.requests, s.rows);
    }
  }

  lemma StepCreateMessage(s: State, t: TaskId)
    requires Invariant(s) && Enabled(s, CreateMessage(t))
    ensures Invariant(DoCreateMessage(s, t))
  {
    var k := s.sends[t];
    var m := RowOf(s.nextId, k.author, k.payload);
    assert TaskSound(k, s.tokens.log, s.requests.requests, s.rows);
    if Insert(s.rows, Known(s), m).Err? {
      StepToPhase(s, t, Refused);
    } else {
      StoreTables(s, m);
      StoreSends(s, t, m);
    }
  }

  lemma StoreTables(s: State, m: Message)
    requires TablesInvariant(s) && m.id == s.nextId
    ensures TablesInvariant(s.(rows := s.rows + [m], nextId := s.nextId + 1))
  {
    OwnLastSentGrow(s.chats, s.rows, s.rows + [m]);
  }

  lemma StoreSends(s: State, t: TaskId, m: Message)
    requires SendsInvariant(s) && LiveDone(s.outbox, s.sends) && RowsSound(s.rows, s.nextId)
    requires t in s.sends && s.sends[t].phase.Vetted?
    requires m == RowOf(s.nextId, s.sends[t].author, s.sends[t].payload)
    ensures var s' := ToPhase(s, t, Stored(m)).(rows := s.rows + [m]);
            SendsInvariant(s') && LiveDone(s'.outbox, s'.sends)
  {
    var k, rows := s.sends[t].(phase := Stored(m)), s.rows + [m];
    assert TaskSound(s.sends[t], s.tokens.log, s.requests.requests, s.rows);
    TasksGrow(s.sends, s.tokens.log, s.tokens.log, s.requests.requests, s.rows, rows);
    assert m in rows;
    TaskUpdate(s.sends, t, k, s.tokens.log, s.requests.requests, rows);
    HeldInRows(s);
    NewHold(s.sends, t, k, s.rows, m, s.outbox);
  }

  lemma StepAddLastSent(s: State, t: TaskId)
    requires Invariant(s) && Enabled(s, AddLastSent(t))
    ensures Invariant(DoAddLastSent(s, t))
  {
    var m := s.sends[t].phase.message;
    assert TaskSound(s.sends[t], s.tokens.log, s.requests.requests, s.rows);
    if m.directChatId !in s.chats || LastSentTaken(s.chats, m.directChatId, m.id) {
      StepToPhase(s, t, Lost(m));
    } else {
      StepToPhase(s, t, Pointed(m));
      var chats := s.chats[m.directChatId := Some(m.id)];
      forall c | c in chats && chats[c].Some?
        ensures exists n :: n in s.rows && n.id == chats[c].value && n.directChatId == c
      {
        if c == m.directChatId {
          assert m in s.rows;
        } else {
          assert chats[c] == s.chats[c];
        }
      }
    }
  }

  lemma StepEmitMessage(s: State, t: TaskId)
    requires Invariant(s) && Enabled(s, EmitMessage(t))
    ensures Invariant(DoEmitMessage(s, t))
  {
    var k := s.sends[t];
    var m := k.phase.message;
    assert TaskSound(k, s.tokens.log, s.requests.requests, s.rows);
    StepToPhase(s, t, Done(m));
    var sends := ToPhase(s, t, Done(m)).sends;
    var receiver := k.payload.receiverId;
    if receiver in s.connected {
      NotYetLive(s, t);
      EmitLive(s.outbox, Live(s.connected[receiver], m), sends, s.connects, t);
      EmitOther(s.outbox + [Live(s.connected[receiver], m)], Echo(k.socket, m), sends, s.connects);
    } else {
      EmitOther(s.outbox, Echo(k.socket, m), sends, s.connects);
      assert s.outbox + [] == s.outbox;
    }
  }

  lemma NotYetLive(s: State, t: TaskId)
    requires SendsInvariant(s) && LiveDone(s.outbox, s.sends)
    requires t in s.sends && s.sends[t].phase.Pointed?
    ensures forall i :: 0 <= i < |s.outbox| && s.outbox[i].Live? ==>
              s.outbox[i].message != s.sends[t].phase.message
  {
    forall i | 0 <= i < |s.outbox| && s.outbox[i].Live?
      ensures s.outbox[i].message != s.sends[t].phase.message
    {
      var u :| IsDone(s.sends, u, s.outbox[i].message);
      assert Holds(s.sends, u, s.outbox[i].message);
      assert Holds(s.sends, t, s.sends[t].phase.message);
    }
  }

  lemma StepSendFails(s: State, t: TaskId)
    requires Invariant(s) && Enabled(s, SendFails(t))
    ensures Invariant(DoSendFails(s, t))
  {
    assert TaskSound(s.sends[t], s.tokens.log, s.requests.requests, s.rows);
    match Held(s.sends[t].phase) {
      case None => StepToPhase(s, t, Refused);
      case Some(m) => StepToPhase(s, t, Lost(m));
    }
  }

  // ----- every step of a connection keeps it

  lemma StepConnect(s: State, socket: SocketId, user: UserId, offset: MessageId, chat: ChatId)
    requires Invariant(s) && socket !in s.connects
    ensures Invariant(DoConnect(s, socket, user, offset, chat))
  {
    var s' := DoConnect(s, socket, user, offset, chat);
    ConnectMoves(s.outbox, s.sends, s.connects, socket, s'.connects[socket]);
    EmitOther(s.outbox, Greeting(socket), s.sends, s'.connects);
  }

  lemma StepQuery(s: State, socket: SocketId)
    requires Invariant(s) && Enabled(s, Query(socket))
    ensures Invariant(DoQuery(s, socket))
  {
    var c := s.connects[socket];
    NewerMembers(s.rows, c.chat, c.offset);
    ConnectMoves(s.outbox, s.sends, s.connects, socket, DoQuery(s, socket).connects[socket]);
    assert DoQuery(s, socket).connects.Keys == s.connects.Keys;
  }

  lemma StepRecover(s: State, socket: SocketId)
    requires Invariant(s) && Enabled(s, Recover(socket))
    ensures Invariant(DoRecover(s, socket))
  {
    var s' := DoRecover(s, socket);
    assert s'.connects.Keys == s.connects.Keys;
    var messages := s.connects[socket].phase.messages;
    ConnectMoves(s.outbox, s.sends, s.connects, socket, s'.connects[socket]);
    if messages != [] {
      EmitRecovered(s.outbox, Recovered(socket, messages), s.sends, s'.connects);
    } else {
      assert s.outbox + [] == s.outbox;
    }
  }

  lemma StepConnectFails(s: State, socket: SocketId)
    requires Invariant(s) && Enabled(s, ConnectFails(socket))
    ensures Invariant(Apply(s, ConnectFails(socket)))
  {
    var s' := Apply(s, ConnectFails(socket));
    ConnectMoves(s.outbox, s.sends, s.connects, socket, s'.connects[socket]);
    assert s'.connects.Keys == s.connects.Keys;
  }

  lemma StepTokens(s: State, e: Tokens.Event)
    requires Invariant(s) && Tokens.Enabled(s.tokens, e)
    ensures Invariant(s.(tokens := Tokens.Apply(s.tokens, e)))
  {
    Tokens.StepInvariant(s.tokens, e);
    TasksGrow(s.sends, s.tokens.log, Tokens.Apply(s.tokens, e).log, s.requests.requests, s.rows, s.rows);
  }

  lemma StepDisconnect(s: State, user: UserId)
    requires Invariant(s)
    ensures Invariant(DoDisconnect(s, user))
  {
    if user != 0 {
      StepTokens(s, Tokens.RemoveAll(user));
    }
  }

  // ----- the other steps

  lemma StepTyping(s: State, sender: UserId, receiver: UserId, isTyping: bool)
    requires Invariant(s)
    ensures Invariant(DoTyping(s, sender, receiver, isTyping))
  {
    if receiver in s.connected {
      var socket := s.connected[receiver];
      Typing.StepInvariant(s.typing, if isTyping then Typing.Init(sender, socket)
                                     else Typing.Remove(sender));
      EmitOther(s.outbox, TypingFlag(socket, isTyping), s.sends, s.connects);
    }
  }

  lemma StepTypingTimer(s: State, id: TimerId)
    requires Invariant(s) && Enabled(s, TypingTimer(id))
    ensures Invariant(DoTypingTimer(s, id))
  {
    Typing.StepInvariant(s.typing, Typing.Fire(id));
    EmitOther(s.outbox, TypingFlag(s.typing.timers[id].socket, false), s.sends, s.connects);
  }

  lemma StepTimePasses(s: State, elapsed: nat)
    requires Invariant(s)
    ensures Invariant(Apply(s, TimePasses(elapsed)))
  {
    StepTokens(s, Tokens.Tick(elapsed));
    Typing.StepInvariant(s.typing, Typing.Tick(elapsed));
  }

  lemma StepFriendCall(s: State, call: Requests.Call)
    requires Invariant(s)
    ensures Invariant(Apply(s, FriendCall(call)))
  {
    Requests.StepConsistent(s.requests, call);
    TasksKeepFriends(s.sends, s.tokens.log, s.requests, Requests.Step(s.requests, call), s.rows);
  }

  lemma StepInvariant(s: State, step: Step)
    requires Invariant(s) && Enabled(s, step)
    ensures Invariant(Apply(s, step))
  {
    match step {
      case SendArrives(t, socket, author, payload) => StepSendArrives(s, t, socket, author, payload);
      case CheckUnique(t) => StepCheckUnique(s, t);
      case CheckFriendship(t) => StepCheckFriendship(s, t);
      case CreateMessage(t) => StepCreateMessage(s, t);
      case AddLastSent(t) => StepAddLastSent(s, t);
      case EmitMessage(t) => StepEmitMessage(s, t);
      case SendFails(t) => StepSendFails(s, t);
      case Connect(socket, user, offset, chat) => StepConnect(s, socket, user, offset, chat);
      case Query(socket) => StepQuery(s, socket);
      case Recover(socket) => StepRecover(s, socket);
      case ConnectFails(socket) => StepConnectFails(s, socket);
      case Disconnect(user) => StepDisconnect(s, user);
      case TypingArrives(sender, receiver, isTyping) => StepTyping(s, sender, receiver, isTyping);
      case TypingTimer(id) => StepTypingTimer(s, id);
      case TokenTimer(timer) => StepTokens(s, Tokens.Fire(timer));
      case TimePasses(elapsed) => StepTimePasses(s, elapsed);
      case FriendCall(call) => StepFriendCall(s, call);
    }
  }

  lemma {:induction false} RunInvariant(s: State, steps: seq<Step>)
    requires Invariant(s) && ValidRun(s, steps)
    ensures Invariant(Run(s, steps))
    decreases |steps|
  {
    if steps != [] {
      StepInvariant(s, steps[0]);
      RunInvariant(Apply(s, steps[0]), steps[1..]);
    }
  }

  lemma InitialInvariant(w: World)
    ensures Invariant(Initial(w))
  {
    Tokens.StartInvariant(w.now);
  }
}
