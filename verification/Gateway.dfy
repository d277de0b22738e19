/** The socket gateway as interleaved steps. Every handler is cut at each `await`; between two steps
    of one handler any steps of others may come. An `await` may also reject, which ends the handler.
    A missing connect argument and 0 are both falsy in the source, so 0 stands for either. */
module Gateway {
  import opened Domain
  import opened Wrappers
  import opened Messages
  import opened DirectChats
  import Requests = FriendRequests
  import Tokens = MessageTokens
  import Typing

  datatype Payload = Payload(kind: MessageType, receiverId: UserId, token: Token, directChatId: ChatId,
                             timestamp: Time, content: string)

  /** How far a send has come: what its last finished `await` gave it. */
  datatype Phase =
    | Authenticated
    | TokenTaken
    | Vetted
    | Stored(message: Message)
    | Pointed(message: Message)
    | Done(message: Message)
    | Refused                    // it threw with no row stored
    | Lost(message: Message)     // it threw after its row was stored

  /** `ticket` is where the token log records the acceptance of the send, or -1. */
  datatype SendTask = SendTask(socket: SocketId, author: UserId, payload: Payload, phase: Phase,
                               ticket: int)

  datatype ConnectPhase = Querying | Fetched(messages: seq<Message>) | Connected | Closed

  datatype ConnectTask = ConnectTask(user: UserId, offset: MessageId, chat: ChatId, phase: ConnectPhase)

  datatype Emission =
    | Greeting(socket: SocketId)
    | Live(socket: SocketId, message: Message)
    | Echo(socket: SocketId, message: Message)
    | Recovered(socket: SocketId, messages: seq<Message>)
    | TypingFlag(socket: SocketId, isTyping: bool)

  datatype State = State(
    requests: Requests.Tables,
    tokens: Tokens.Tokens,
    typing: Typing.State,
    connected: map<UserId, SocketId>,
    chats: map<ChatId, Option<MessageId>>,
    stickers: set<string>,
    rows: seq<Message>,
    nextId: MessageId,
    sends: map<TaskId, SendTask>,
    connects: map<SocketId, ConnectTask>,
    outbox: seq<Emission>)

  datatype Step =
    | SendArrives(task: TaskId, socket: SocketId, author: UserId, payload: Payload)
    | CheckUnique(task: TaskId)
    | CheckFriendship(task: TaskId)
    | CreateMessage(task: TaskId)
    | AddLastSent(task: TaskId)
    | EmitMessage(task: TaskId)
    | SendFails(task: TaskId)
    | Connect(socket: SocketId, user: UserId, offset: MessageId, chat: ChatId)
    | Query(socket: SocketId)
    | Recover(socket: SocketId)
    | ConnectFails(socket: SocketId)
    | Disconnect(user: UserId)
    | TypingArrives(sender: UserId, receiver: UserId, isTyping: bool)
    | TypingTimer(timer: TimerId)
    | TokenTimer(expiry: Tokens.Timer)
    | TimePasses(elapsed: nat)
    | FriendCall(call: Requests.Call)

  function RowOf(id: MessageId, author: UserId, p: Payload): Message {
    match p.kind
    case TEXT =>
      Message(id, p.content, author, p.receiverId, p.directChatId, SENT, TEXT, None, p.timestamp)
    case STICKER =>
      Message(id, "", author, p.receiverId, p.directChatId, SENT, STICKER, Some(p.content), p.timestamp)
  }

  function Held(phase: Phase): Option<Message> {
    match phase
    case Stored(m) => Some(m)
    case Pointed(m) => Some(m)
    case Done(m) => Some(m)
    case Lost(m) => Some(m)
    case _ => None
  }

  // ----- the steps of a send

  function ToPhase(s: State, t: TaskId, phase: Phase): State
    requires t in s.sends
  {
    s.(sends := s.sends[t := s.sends[t].(phase := phase)])
  }

  function DoCheckUnique(s: State, t: TaskId): State
    requires t in s.sends
  {
    var k := s.sends[t];
    if k.payload.token in Tokens.ListOf(s.tokens.lists, k.author) then ToPhase(s, t, Refused)
    else
      s.(tokens := Tokens.Apply(s.tokens, Tokens.Check(k.author, k.payload.token)),
         sends := s.sends[t := k.(phase := TokenTaken, ticket := |s.tokens.log|)])
  }

  function DoCheckFriendship(s: State, t: TaskId): State
    requires t in s.sends
  {
    var k := s.sends[t];
    if Requests.IsFriend(s.requests.requests, k.author, k.payload.receiverId)
    then ToPhase(s, t, Vetted) else ToPhase(s, t, Refused)
  }

  function Known(s: State): References {
    References(s.requests.users, s.chats.Keys, s.stickers)
  }

  function DoCreateMessage(s: State, t: TaskId): State
    requires t in s.sends
  {
    var k := s.sends[t];
    var m := RowOf(s.nextId, k.author, k.payload);
    match Insert(s.rows, Known(s), m)
    case Err(_) => ToPhase(s, t, Refused).(nextId := s.nextId + 1)
    case Ok(rows) => ToPhase(s, t, Stored(m)).(rows := rows, nextId := s.nextId + 1)
  }

  function DoAddLastSent(s: State, t: TaskId): State
    requires t in s.sends && s.sends[t].phase.Stored?
  {
    var m := s.sends[t].phase.message;
    if m.directChatId !in s.chats || LastSentTaken(s.chats, m.directChatId, m.id) then
      ToPhase(s, t, Lost(m))
    else
      ToPhase(s, t, Pointed(m)).(chats := s.chats[m.directChatId := Some(m.id)])
  }

  function DoEmitMessage(s: State, t: TaskId): State
    requires t in s.sends && s.sends[t].phase.Pointed?
  {
    var k := s.sends[t];
    var m := k.phase.message;
    var live := if k.payload.receiverId in s.connected
                then [Live(s.connected[k.payload.receiverId], m)] else [];
    ToPhase(s, t, Done(m)).(outbox := s.outbox + live + [Echo(k.socket, m)])
  }

  function DoSendFails(s: State, t: TaskId): State
    requires t in s.sends
  {
    match Held(s.sends[t].phase)
    case None => ToPhase(s, t, Refused)
    case Some(m) => ToPhase(s, t, Lost(m))
  }

  // ----- the steps of a connection

  /** The socket is registered, and only then is the query for missing messages begun. */
  function DoConnect(s: State, socket: SocketId, user: UserId, offset: MessageId, chat: ChatId): State {
    var phase := if offset != 0 && chat != 0 then Querying else Connected;
    s.(connected := s.connected[user := socket],
       connects := s.connects[socket := ConnectTask(user, offset, chat, phase)],
       outbox := s.outbox + [Greeting(socket)])
  }

  function DoQuery(s: State, socket: SocketId): State
    requires socket in s.connects
  {
    var c := s.connects[socket];
    s.(connects := s.connects[socket := c.(phase := Fetched(Newer(s.rows, c.chat, c.offset)))])
  }

  function DoRecover(s: State, socket: SocketId): State
    requires socket in s.connects && s.connects[socket].phase.Fetched?
  {
    var c := s.connects[socket];
    var messages := c.phase.messages;
    s.(connects := s.connects[socket := c.(phase := Connected)],
       outbox := s.outbox + if messages == [] then [] else [Recovered(socket, messages)])
  }

  function DoDisconnect(s: State, user: UserId): State {
    if user == 0 then s
    else s.(connected := s.connected - {user},
            tokens := Tokens.Apply(s.tokens, Tokens.RemoveAll(user)))
  }

  function DoTyping(s: State, sender: UserId, receiver: UserId, isTyping: bool): State {
    if receiver !in s.connected then s
    else
      var socket := s.connected[receiver];
      s.(outbox := s.outbox + [TypingFlag(socket, isTyping)],
         typing := Typing.Apply(s.typing, if isTyping then Typing.Init(sender, socket)
                                          else Typing.Remove(sender)))
  }

  function DoTypingTimer(s: State, id: TimerId): State
    requires id in s.typing.timers
  {
    s.(outbox := s.outbox + [TypingFlag(s.typing.timers[id].socket, false)],
       typing := Typing.Apply(s.typing, Typing.Fire(id)))
  }

  // ----- runs

  predicate Enabled(s: State, step: Step) {
    match step
    case SendArrives(t, _, _, _) => t !in s.sends
    case CheckUnique(t) => t in s.sends && s.sends[t].phase.Authenticated?
    case CheckFriendship(t) => t in s.sends && s.sends[t].phase.TokenTaken?
    case CreateMessage(t) => t in s.sends && s.sends[t].phase.Vetted?
    case AddLastSent(t) => t in s.sends && s.sends[t].phase.Stored?
    case EmitMessage(t) => t in s.sends && s.sends[t].phase.Pointed?
    case SendFails(t) => t in s.sends && !Finished(s.sends[t].phase)
    case Connect(socket, _, _, _) => socket !in s.connects
    case Query(socket) => socket in s.connects && s.connects[socket].phase.Querying?
    case Recover(socket) => socket in s.connects && s.connects[socket].phase.Fetched?
    case ConnectFails(socket) =>
      socket in s.connects && (s.connects[socket].phase.Querying? || s.connects[socket].phase.Fetched?)
    case TypingTimer(id) => Typing.Enabled(s.typing, Typing.Fire(id))
    case TokenTimer(timer) => Tokens.Enabled(s.tokens, Tokens.Fire(timer))
    case _ => true
  }

  predicate Finished(phase: Phase) {
    phase.Done? || phase.Refused? || phase.Lost?
  }

  function Apply(s: State, step: Step): State
    requires Enabled(s, step)
  {
    match step
    case SendArrives(t, socket, author, payload) =>
      s.(sends := s.sends[t := SendTask(socket, author, payload, Authenticated, -1)])
    case CheckUnique(t) => DoCheckUnique(s, t)
    case CheckFriendship(t) => DoCheckFriendship(s, t)
    case CreateMessage(t) => DoCreateMessage(s, t)
    case AddLastSent(t) => DoAddLastSent(s, t)
    case EmitMessage(t) => DoEmitMessage(s, t)
    case SendFails(t) => DoSendFails(s, t)
    case Connect(socket, user, offset, chat) => DoConnect(s, socket, user, offset, chat)
    case Query(socket) => DoQuery(s, socket)
    case Recover(socket) => DoRecover(s, socket)
    case ConnectFails(socket) =>
      s.(connects := s.connects[socket := s.connects[socket].(phase := Closed)])
    case Disconnect(user) => DoDisconnect(s, user)
    case TypingArrives(sender, receiver, isTyping) => DoTyping(s, sender, receiver, isTyping)
    case TypingTimer(id) => DoTypingTimer(s, id)
    case TokenTimer(timer) => s.(tokens := Tokens.Apply(s.tokens, Tokens.Fire(timer)))
    case TimePasses(elapsed) =>
      s.(tokens := Tokens.Apply(s.tokens, Tokens.Tick(elapsed)),
         typing := Typing.Apply(s.typing, Typing.Tick(elapsed)))
    case FriendCall(call) => s.(requests := Requests.Step(s.requests, call))
  }

  /** What is there before the gateway starts. */
  datatype World = World(users: set<UserId>, chats: set<ChatId>, stickers: set<string>, now: Time)

  function Initial(w: World): State {
    State(Requests.Empty(w.users), Tokens.Start(w.now), Typing.Begin(w.now), map[],
          map c | c in w.chats :: None, w.stickers, [], 1, map[], map[], [])
  }

  ghost predicate ValidRun(s: State, steps: seq<Step>)
    decreases |steps|
  {
    steps != [] ==> Enabled(s, steps[0]) && ValidRun(Apply(s, steps[0]), steps[1..])
  }

  function Run(s: State, steps: seq<Step>): State
    requires ValidRun(s, steps)
    decreases |steps|
  {
    if steps == [] then s else Run(Apply(s, steps[0]), steps[1..])
  }
}
