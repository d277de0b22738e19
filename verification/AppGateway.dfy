/** The gateway object over its services. The handlers that are waiting at an `await` are kept by task
    and by socket, and what went out is kept in order; each method is what the event loop runs from
    one `await` to the next. */
module AppGateways {
  import opened Domain
  import opened Wrappers
  import opened Messages
  import opened DirectChats
  import opened Sockets
  import opened Gateway
  import GatewayInvariant
  import Requests = FriendRequests
  import Tokens = MessageTokens
  import Typing

  class AppGateway {
    const messageTokensManager: Tokens.MessageTokensManager
    const convTypingManager: Typing.ConversationTypingManager
    const socketService: SocketService
    const friendRequestService: Requests.FriendRequestService
    const directMessageService: DirectMessageService
    const directChatService: DirectChatService
    const stickers: set<string>
    var sends: map<TaskId, SendTask>
    var connects: map<SocketId, ConnectTask>
    var outbox: seq<Emission>

    ghost function Repr(): set<object> {
      {this, messageTokensManager, convTypingManager, socketService, friendRequestService,
       directMessageService, directChatService}
    }

    ghost predicate Valid()
      reads Repr()
    {
      directMessageService.Valid()
    }

    ghost function View(): State
      reads Repr()
    {
      State(friendRequestService.State(), messageTokensManager.State(), convTypingManager.View(),
            socketService.connectedClients, directChatService.chats, stickers,
            directMessageService.rows, directMessageService.nextId, sends, connects, outbox)
    }

    constructor (w: World)
      ensures Valid() && fresh(Repr())
      ensures View() == Initial(w)
    {
      messageTokensManager := new Tokens.MessageTokensManager(w.now);
      convTypingManager := new Typing.ConversationTypingManager(w.now);
      socketService := new SocketService();
      friendRequestService := new Requests.FriendRequestService(w.users);
      directMessageService := new DirectMessageService();
      directChatService := new DirectChatService(w.chats);
      stickers := w.stickers;
      sends, connects, outbox := map[], map[], [];
    }

    // ----- sends

    method HandleSendDirectMessage(t: TaskId, socket: SocketId, clientId: UserId, payload: Payload)
      requires Valid() && Enabled(View(), SendArrives(t, socket, clientId, payload))
      modifies this
      ensures Valid() && View() == Apply(old(View()), SendArrives(t, socket, clientId, payload))
    {
      sends := sends[t := SendTask(socket, clientId, payload, Authenticated, -1)];
    }

    method CheckUniqueMessage(t: TaskId)
      requires Valid() && Enabled(View(), CheckUnique(t))
      modifies this, messageTokensManager
      ensures Valid() && View() == Apply(old(View()), CheckUnique(t))
    {
      var k := sends[t];
      var accepted := |messageTokensManager.log|;
      var unique := messageTokensManager.IsUniqueToken(k.author, k.payload.token);
      if unique {
        sends := sends[t := k.(phase := TokenTaken, ticket := accepted)];
      } else {
        sends := sends[t := k.(phase := Refused)];
      }
    }

    method CheckFriendship(t: TaskId)
      requires Valid() && Enabled(View(), Step.CheckFriendship(t))
      modifies this
      ensures Valid() && View() == Apply(old(View()), Step.CheckFriendship(t))
    {
      var k := sends[t];
      var isFriend := Requests.IsFriend(friendRequestService.requests, k.author, k.payload.receiverId);
      sends := sends[t := k.(phase := if isFriend then Vetted else Refused)];
    }

    /** The two message types call `createNewMessage` with their own content and sticker. */
    method CreateMessage(t: TaskId)
      requires Valid() && Enabled(View(), Step.CreateMessage(t))
      modifies this, directMessageService
      ensures Valid() && View() == Apply(old(View()), Step.CreateMessage(t))
    {
      var k := sends[t];
      var p := k.payload;
      var content, stickerUrl := p.content, None;
      if p.kind == STICKER {
        content, stickerUrl := "", Some(p.content);
      }
      var created := directMessageService.CreateNewMessage(
        content, k.author, p.timestamp, p.directChatId, p.receiverId, p.kind, stickerUrl,
        References(friendRequestService.users, directChatService.chats.Keys, stickers));
      sends := sends[t := k.(phase := if created.Ok? then Stored(created.value) else Refused)];
    }

    method AddLastSentMessage(t: TaskId)
      requires Valid() && Enabled(View(), AddLastSent(t))
      modifies this, directChatService
      ensures Valid() && View() == Apply(old(View()), AddLastSent(t))
    {
      var k := sends[t];
      var m := k.phase.message;
      var updated := directChatService.AddLastSentMessage(m.directChatId, m.id);
      sends := sends[t := k.(phase := if updated.Ok? then Pointed(m) else Lost(m))];
    }

    method EmitMessage(t: TaskId)
      requires Valid() && Enabled(View(), Step.EmitMessage(t))
      modifies this
      ensures Valid() && View() == Apply(old(View()), Step.EmitMessage(t))
    {
      var k := sends[t];
      var newMessage := k.phase.message;
      var recipientSocket := socketService.GetConnectedClient(k.payload.receiverId);
      ghost var before := outbox;
      if recipientSocket.Some? {
        outbox := outbox + [Live(recipientSocket.value, newMessage)];
      }
      assert outbox == before + if recipientSocket.Some?
                                then [Live(recipientSocket.value, newMessage)] else [];
      outbox := outbox + [Echo(k.socket, newMessage)];
      sends := sends[t := k.(phase := Done(newMessage))];
    }

    /** An `await` of a send rejects. */
    method SendRejects(t: TaskId)
      requires Valid() && Enabled(View(), SendFails(t))
      modifies this
      ensures Valid() && View() == Apply(old(View()), SendFails(t))
    {
      var k := sends[t];
      var held := Held(k.phase);
      sends := sends[t := k.(phase := if held.Some? then Lost(held.value) else Refused)];
    }

    // ----- connections

    method HandleConnection(client: SocketId, clientId: UserId, messageOffset: MessageId,
                            directChatId: ChatId)
      requires Valid() && Enabled(View(), Connect(client, clientId, messageOffset, directChatId))
      modifies this, socketService
      ensures Valid() && View() == Apply(old(View()), Connect(client, clientId, messageOffset, directChatId))
    {
      socketService.AddConnectedClient(clientId, client);
      outbox := outbox + [Greeting(client)];
      var phase := Connected;
      if messageOffset != 0 {
        if directChatId != 0 {
          phase := Querying;
        }
      }
      connects := connects[client := ConnectTask(clientId, messageOffset, directChatId, phase)];
    }

    method FetchMissingMessages(client: SocketId)
      requires Valid() && Enabled(View(), Query(client))
      modifies this
      ensures Valid() && View() == Apply(old(View()), Query(client))
    {
      var c := connects[client];
      var messages := directMessageService.GetNewerDirectMessages(c.offset, c.chat);
      connects := connects[client := c.(phase := Fetched(messages))];
    }

    method RecoverMissingMessages(client: SocketId)
      requires Valid() && Enabled(View(), Recover(client))
      modifies this
      ensures Valid() && View() == Apply(old(View()), Recover(client))
    {
      var c := connects[client];
      ghost var before := outbox;
      if |c.phase.messages| > 0 {
        outbox := outbox + [Recovered(client, c.phase.messages)];
      }
      assert outbox == before + if c.phase.messages == [] then []
                                else [Recovered(client, c.phase.messages)];
      connects := connects[client := c.(phase := Connected)];
    }

    /** The query rejects, and the handler closes the socket. */
    method ConnectionRejects(client: SocketId)
      requires Valid() && Enabled(View(), ConnectFails(client))
      modifies this
      ensures Valid() && View() == Apply(old(View()), ConnectFails(client))
    {
      connects := connects[client := connects[client].(phase := Closed)];
    }

    method HandleDisconnect(userId: UserId)
      requires Valid()
      modifies socketService, messageTokensManager
      ensures Valid() && View() == Apply(old(View()), Disconnect(userId))
    {
      if userId != 0 {
        socketService.RemoveConnectedClient(userId);
        messageTokensManager.RemoveAllTokens(userId);
      }
    }

    // ----- typing, timers and friend requests

    method HandleTyping(clientId: UserId, receiverId: UserId, isTyping: bool)
      requires Valid()
      modifies this, convTypingManager
      ensures Valid() && View() == Apply(old(View()), TypingArrives(clientId, receiverId, isTyping))
    {
      var recipientSocket := socketService.GetConnectedClient(receiverId);
      if recipientSocket.Some? {
        outbox := outbox + [TypingFlag(recipientSocket.value, isTyping)];
        if isTyping {
          convTypingManager.InitTyping(clientId, recipientSocket.value);
        } else {
          convTypingManager.RemoveTyping(clientId);
        }
      }
    }

    method TypingTimerFires(id: TimerId)
      requires Valid() && Enabled(View(), TypingTimer(id))
      modifies this, convTypingManager
      ensures Valid() && View() == Apply(old(View()), TypingTimer(id))
    {
      var told := convTypingManager.TimerFires(id);
      outbox := outbox + [TypingFlag(told, false)];
    }

    method TokenTimerFires(timer: Tokens.Timer)
      requires Valid() && Enabled(View(), TokenTimer(timer))
      modifies messageTokensManager
      ensures Valid() && View() == Apply(old(View()), TokenTimer(timer))
    {
      messageTokensManager.TimerFires(timer);
    }

    method ClockAdvances(elapsed: nat)
      requires Valid()
      modifies messageTokensManager, convTypingManager
      ensures Valid() && View() == Apply(old(View()), TimePasses(elapsed))
    {
      messageTokensManager.TimePasses(elapsed);
      convTypingManager.TimePasses(elapsed);
    }

    method FriendRequestArrives(call: Requests.Call)
      requires Valid()
      modifies friendRequestService
      ensures Valid() && View() == Apply(old(View()), FriendCall(call))
    {
      match call
      case SendCall(senderId, recipientId) =>
        var _ := friendRequestService.SendFriendRequest(senderId, recipientId);
      case ActCall(requestId, action) =>
        var _ := friendRequestService.FriendRequestAction(requestId, action);
    }

    // ----- the event loop

    /** One turn of the event loop. */
    method Turn(step: Step)
      requires Valid() && Enabled(View(), step)
      modifies Repr()
      ensures Valid() && View() == Apply(old(View()), step)
    {
      match step
      case SendArrives(t, socket, author, payload) => HandleSendDirectMessage(t, socket, author, payload);
      case CheckUnique(t) => CheckUniqueMessage(t);
      case CheckFriendship(t) => CheckFriendship(t);
      case CreateMessage(t) => CreateMessage(t);
      case AddLastSent(t) => AddLastSentMessage(t);
      case EmitMessage(t) => EmitMessage(t);
      case SendFails(t) => SendRejects(t);
      case Connect(socket, user, offset, chat) => HandleConnection(socket, user, offset, chat);
      case Query(socket) => FetchMissingMessages(socket);
      case Recover(socket) => RecoverMissingMessages(socket);
      case ConnectFails(socket) => ConnectionRejects(socket);
      case Disconnect(user) => HandleDisconnect(user);
      case TypingArrives(sender, receiver, isTyping) => HandleTyping(sender, receiver, isTyping);
      case TypingTimer(id) => TypingTimerFires(id);
      case TokenTimer(timer) => TokenTimerFires(timer);
      case TimePasses(elapsed) => ClockAdvances(elapsed);
      case FriendCall(call) => FriendRequestArrives(call);
    }
  }

  /** The object under any sequence of turns is the state machine under that run, so what is proved
      of every run holds of the object; the invariant of the gateway does in any case. */
  method EventLoop(w: World, steps: seq<Step>)
    returns (gateway: AppGateway)
    requires ValidRun(Initial(w), steps)
    ensures fresh(gateway) && gateway.Valid()
    ensures gateway.View() == Run(Initial(w), steps)
    ensures GatewayInvariant.Invariant(gateway.View())
  {
    GatewayInvariant.InitialInvariant(w);
    GatewayInvariant.RunInvariant(Initial(w), steps);
    gateway := new AppGateway(w);
    var i := 0;
    while i < |steps|
      invariant 0 <= i <= |steps| && fresh(gateway.Repr()) && gateway.Valid()
      invariant ValidRun(gateway.View(), steps[i..])
      invariant Run(gateway.View(), steps[i..]) == Run(Initial(w), steps)
    {
      assert steps[i..][0] == steps[i] && steps[i..][1..] == steps[i + 1..];
      gateway.Turn(steps[i]);
      i := i + 1;
    }
  }
}
