/** The gateway told by the steps alone: what arrived, who is registered, which tokens are taken, who is
    typing, and what goes out with each step. */
module History {
  import opened Domain
  import opened Wrappers
  import opened Messages
  import opened Gateway
  import opened GatewayInvariant
  import opened Emissions
  import Guarantees
  import Requests = FriendRequests
  import Tokens = MessageTokens
  import Typing

  // ----- what arrived

  datatype Arrival = Arrival(socket: SocketId, author: UserId, payload: Payload)

  function Arrived(steps: seq<Step>, t: TaskId): Option<Arrival> {
    if steps == [] then None
    else
      var last := steps[|steps| - 1];
      if last.SendArrives? && last.task == t then Some(Arrival(last.socket, last.author, last.payload))
      else Arrived(steps[..|steps| - 1], t)
  }

  lemma ArrivalKept(s: State, step: Step, t: TaskId)
    requires Enabled(s, step)
    ensures var s' := Apply(s, step);
            if step.SendArrives? && step.task == t then
              t in s'.sends && s'.sends[t] == SendTask(step.socket, step.author, step.payload, Authenticated, -1)
            else
              (t in s'.sends <==> t in s.sends)
              && (t in s.sends ==> s'.sends[t].socket == s.sends[t].socket
                                   && s'.sends[t].author == s.sends[t].author
                                   && s'.sends[t].payload == s.sends[t].payload)
  {
    if !IsSendStep(step) {
      OtherStepFrame(s, step);
    }
  }

  /** Over every run a send is under way, or over, exactly when it has arrived, and as it arrived. */
  lemma {:induction false} ArrivedExactly(w: World, steps: seq<Step>, t: TaskId)
    requires ValidRun(Initial(w), steps)
    ensures var s := Run(Initial(w), steps);
            Arrived(steps, t)
            == if t in s.sends then Some(Arrival(s.sends[t].socket, s.sends[t].author, s.sends[t].payload))
               else None
    decreases |steps|
  {
    if steps != [] {
      var front, last := steps[..|steps| - 1], steps[|steps| - 1];
      assert steps == front + [last];
      RunSnoc(Initial(w), front, last);
      ArrivedExactly(w, front, t);
      ArrivalKept(Run(Initial(w), front), last, t);
    }
  }

  // ----- the services

  /** What the token manager is asked to do. */
  function TokenEvents(steps: seq<Step>): seq<Tokens.Event> {
    if steps == [] then []
    else TokenEvents(steps[..|steps| - 1]) + TokenEvent(steps[..|steps| - 1], steps[|steps| - 1])
  }

  function TokenEvent(front: seq<Step>, last: Step): seq<Tokens.Event> {
    match last
    case CheckUnique(t) =>
      (match Arrived(front, t)
       case None => []
       case Some(a) => [Tokens.Check(a.author, a.payload.token)])
    case Disconnect(user) => if user == 0 then [] else [Tokens.RemoveAll(user)]
    case TokenTimer(timer) => [Tokens.Fire(timer)]
    case TimePasses(elapsed) => [Tokens.Tick(elapsed)]
    case _ => []
  }

  /** What the typing manager is asked to do: nothing while the recipient has no socket. */
  function TypingEvents(steps: seq<Step>): seq<Typing.Event> {
    if steps == [] then []
    else TypingEvents(steps[..|steps| - 1]) + TypingEvent(steps[..|steps| - 1], steps[|steps| - 1])
  }

  function TypingEvent(front: seq<Step>, last: Step): seq<Typing.Event> {
    match last
    case TypingArrives(sender, receiver, isTyping) =>
      (match Registered(front, receiver)
       case None => []
       case Some(socket) => if isTyping then [Typing.Init(sender, socket)] else [Typing.Remove(sender)])
    case TypingTimer(id) => [Typing.Fire(id)]
    case TimePasses(elapsed) => [Typing.Tick(elapsed)]
    case _ => []
  }

  function FriendCalls(steps: seq<Step>): seq<Requests.Call> {
    if steps == [] then []
    else
      var last, front := steps[|steps| - 1], FriendCalls(steps[..|steps| - 1]);
      if last.FriendCall? then front + [last.call] else front
  }

  lemma TokensMove(s: State, step: Step)
    requires Enabled(s, step)
    ensures Apply(s, step).tokens
            == match step
               case CheckUnique(t) =>
                 Tokens.Apply(s.tokens, Tokens.Check(s.sends[t].author, s.sends[t].payload.token))
               case Disconnect(user) =>
                 if user == 0 then s.tokens else Tokens.Apply(s.tokens, Tokens.RemoveAll(user))
               case TokenTimer(timer) => Tokens.Apply(s.tokens, Tokens.Fire(timer))
               case TimePasses(elapsed) => Tokens.Apply(s.tokens, Tokens.Tick(elapsed))
               case _ => s.tokens
  {
  }

  /** Over every run the tokens are those that the steps ask for, so whatever is proved of runs of the
      token manager holds of the gateway. */
  lemma {:induction false} TokensTold(w: World, steps: seq<Step>)
    requires ValidRun(Initial(w), steps)
    ensures Tokens.ValidRun(Tokens.Start(w.now), TokenEvents(steps))
    ensures Run(Initial(w), steps).tokens == Tokens.Run(Tokens.Start(w.now), TokenEvents(steps))
    decreases |steps|
  {
    if steps != [] {
      var front, last := steps[..|steps| - 1], steps[|steps| - 1];
      assert steps == front + [last];
      RunSnoc(Initial(w), front, last);
      TokensTold(w, front);
      TokensMove(Run(Initial(w), front), last);
      if last.CheckUnique? { ArrivedExactly(w, front, last.task); }
      OneTokenEvent(w, front, last);
    }
  }

  lemma OneTokenEvent(w: World, front: seq<Step>, last: Step)
    requires Tokens.ValidRun(Tokens.Start(w.now), TokenEvents(front))
    requires var s := Tokens.Run(Tokens.Start(w.now), TokenEvents(front));
             forall e :: TokenEvent(front, last) == [e] ==> Tokens.Enabled(s, e)
    ensures Tokens.ValidRun(Tokens.Start(w.now), TokenEvents(front) + TokenEvent(front, last))
    ensures Tokens.Run(Tokens.Start(w.now), TokenEvents(front) + TokenEvent(front, last))
            == var s := Tokens.Run(Tokens.Start(w.now), TokenEvents(front));
               if TokenEvent(front, last) == [] then s else Tokens.Apply(s, TokenEvent(front, last)[0])
  {
    var events, more := TokenEvents(front), TokenEvent(front, last);
    if more == [] {
      assert events + more == events;
    } else {
      assert more == [more[0]];
      Tokens.RunSnoc(Tokens.Start(w.now), events, more[0]);
    }
  }

  lemma TypingMoves(s: State, step: Step)
    requires Enabled(s, step)
    ensures Apply(s, step).typing
            == match step
               case TypingArrives(sender, receiver, isTyping) =>
                 if receiver !in s.connected then s.typing
                 else if isTyping then Typing.Apply(s.typing, Typing.Init(sender, s.connected[receiver]))
                 else Typing.Apply(s.typing, Typing.Remove(sender))
               case TypingTimer(id) => Typing.Apply(s.typing, Typing.Fire(id))
               case TimePasses(elapsed) => Typing.Apply(s.typing, Typing.Tick(elapsed))
               case _ => s.typing
  {
  }

  /** The same for the typing manager. */
  lemma {:induction false} TypingTold(w: World, steps: seq<Step>)
    requires ValidRun(Initial(w), steps)
    ensures Typing.ValidRun(Typing.Begin(w.now), TypingEvents(steps))
    ensures Run(Initial(w), steps).typing == Typing.Run(Typing.Begin(w.now), TypingEvents(steps))
    decreases |steps|
  {
    if steps != [] {
      var front, last := steps[..|steps| - 1], steps[|steps| - 1];
      assert steps == front + [last];
      RunSnoc(Initial(w), front, last);
      TypingTold(w, front);
      TypingMoves(Run(Initial(w), front), last);
      if last.TypingArrives? { SocketMapExact(w, front, last.receiver); }
      OneTypingEvent(w, front, last);
    }
  }

  lemma OneTypingEvent(w: World, front: seq<Step>, last: Step)
    requires Typing.ValidRun(Typing.Begin(w.now), TypingEvents(front))
    requires var s := Typing.Run(Typing.Begin(w.now), TypingEvents(front));
             forall e :: TypingEvent(front, last) == [e] ==> Typing.Enabled(s, e)
    ensures Typing.ValidRun(Typing.Begin(w.now), TypingEvents(front) + TypingEvent(front, last))
    ensures Typing.Run(Typing.Begin(w.now), TypingEvents(front) + TypingEvent(front, last))
            == var s := Typing.Run(Typing.Begin(w.now), TypingEvents(front));
               if TypingEvent(front, last) == [] then s else Typing.Apply(s, TypingEvent(front, last)[0])
  {
    var events, more := TypingEvents(front), TypingEvent(front, last);
    if more == [] {
      assert events + more == events;
    } else {
      assert more == [more[0]];
      Typing.RunSnoc(Typing.Begin(w.now), events, more[0]);
    }
  }

  lemma RequestsMove(s: State, step: Step)
    requires Enabled(s, step)
    ensures Apply(s, step).requests
            == if step.FriendCall? then Requests.Step(s.requests, step.call) else s.requests
  {
  }

  /** And for requests and friends. */
  lemma {:induction false} RequestsTold(w: World, steps: seq<Step>)
    requires ValidRun(Initial(w), steps)
    ensures Run(Initial(w), steps).requests == Requests.Run(Requests.Empty(w.users), FriendCalls(steps))
    decreases |steps|
  {
    if steps != [] {
      var front, last := steps[..|steps| - 1], steps[|steps| - 1];
      assert steps == front + [last];
      RunSnoc(Initial(w), front, last);
      RequestsTold(w, front);
      RequestsMove(Run(Initial(w), front), last);
      if last.FriendCall? {
        Requests.RunAppend(Requests.Empty(w.users), FriendCalls(front), [last.call]);
        OneCall(Run(Initial(w), front).requests, last.call);
      }
    }
  }

  lemma OneCall(t: Requests.Tables, call: Requests.Call)
    ensures Requests.Run(t, [call]) == Requests.Step(t, call)
  {
    assert [call][1..] == [];
    assert Requests.Run(Requests.Step(t, call), []) == Requests.Step(t, call);
  }

  // ----- tokens

  /** After a disconnect the user's list is empty, every other list is as it was, and the log records
      the removal; a user id of 0 changes nothing. */
  lemma DisconnectFrees(w: World, steps: seq<Step>, user: UserId, other: UserId)
    requires ValidRun(Initial(w), steps + [Disconnect(user)])
    ensures ValidRun(Initial(w), steps)
    ensures var s, s' := Run(Initial(w), steps), Run(Initial(w), steps + [Disconnect(user)]);
            && (user != 0 ==>
                  && user !in s'.connected && Tokens.ListOf(s'.tokens.lists, user) == []
                  && s'.tokens.log == s.tokens.log + [Tokens.Cleared(user, s.tokens.now)])
            && (other != user ==>
                  && Tokens.ListOf(s'.tokens.lists, other) == Tokens.ListOf(s.tokens.lists, other)
                  && (other in s'.connected <==> other in s.connected)
                  && (other in s.connected ==> s'.connected[other] == s.connected[other]))
            && s'.tokens.timers == s.tokens.timers && s'.outbox == s.outbox
            && (user == 0 ==> s' == s)
  {
    RunSnoc(Initial(w), steps, Disconnect(user));
  }

  /** Whether some send of the user with this token was checked since the user last disconnected and
      since a timer of the token last fired. */
  predicate TokenHeld(steps: seq<Step>, user: UserId, token: Token) {
    if steps == [] then false
    else
      var last, front := steps[|steps| - 1], steps[..|steps| - 1];
      if last.CheckUnique? && Arrived(front, last.task).Some?
         && Arrived(front, last.task).value.author == user
         && Arrived(front, last.task).value.payload.token == token then true
      else if last == Disconnect(user) && user != 0 then false
      else if last.TokenTimer? && last.expiry.user == user && last.expiry.token == token then false
      else TokenHeld(front, user, token)
  }

  lemma TokenHeldSnoc(front: seq<Step>, last: Step, user: UserId, token: Token)
    ensures |TokenEvent(front, last)| <= 1
    ensures TokenHeld(front + [last], user, token) <==>
            var held, more := TokenHeld(front, user, token), TokenEvent(front, last);
            if more == [] then held
            else
              match more[0]
              case Check(u, t) => (u == user && t == token) || held
              case RemoveAll(u) => u != user && held
              case Fire(timer) => !(timer.user == user && timer.token == token) && held
              case Tick(_) => held
  {
    assert (front + [last])[..|front|] == front;
  }

  lemma ListedMore(events: seq<Tokens.Event>, more: seq<Tokens.Event>, user: UserId, token: Token)
    requires |more| <= 1
    ensures Tokens.ListedBy(events + more, user, token) <==>
            var before := Tokens.ListedBy(events, user, token);
            if more == [] then before
            else
              match more[0]
              case Check(u, t) => (u == user && t == token) || before
              case RemoveAll(u) => u != user && before
              case Fire(timer) => !(timer.user == user && timer.token == token) && before
              case Tick(_) => before
  {
    if more == [] {
      assert events + more == events;
    } else {
      assert more == [more[0]];
      Tokens.ListedSnoc(events, more[0], user, token);
    }
  }

  lemma {:induction false} TokenHeldExactly(steps: seq<Step>, user: UserId, token: Token)
    ensures TokenHeld(steps, user, token) <==> Tokens.ListedBy(TokenEvents(steps), user, token)
    decreases |steps|
  {
    if steps != [] {
      var front, last := steps[..|steps| - 1], steps[|steps| - 1];
      assert steps == front + [last];
      TokenHeldExactly(front, user, token);
      TokenHeldSnoc(front, last, user, token);
      ListedMore(TokenEvents(front), TokenEvent(front, last), user, token);
    }
  }

  /** Over every run the token check of a send goes through exactly when the token is not held by the
      author; the send is refused otherwise, and nothing else of it changes. */
  lemma CheckTakesExactly(w: World, steps: seq<Step>, t: TaskId)
    requires ValidRun(Initial(w), steps + [CheckUnique(t)])
    ensures ValidRun(Initial(w), steps) && Arrived(steps, t).Some?
    ensures var s, s' := Run(Initial(w), steps), Run(Initial(w), steps + [CheckUnique(t)]);
            var a := Arrived(steps, t).value;
            && t in s'.sends && s'.outbox == s.outbox && s'.rows == s.rows
            && if TokenHeld(steps, a.author, a.payload.token) then
                 s'.sends[t].phase == Refused && s'.tokens == s.tokens
               else
                 && s'.sends[t].phase == TokenTaken
                 && a.payload.token in Tokens.ListOf(s'.tokens.lists, a.author)
                 && s'.tokens.log
                    == s.tokens.log + [Tokens.Accepted(a.author, a.payload.token, s.tokens.now)]
  {
    RunSnoc(Initial(w), steps, CheckUnique(t));
    ArrivedExactly(w, steps, t);
    TokensTold(w, steps);
    var a := Arrived(steps, t).value;
    TokenHeldExactly(steps, a.author, a.payload.token);
    Tokens.ListedExactly(w.now, TokenEvents(steps), a.author, a.payload.token);
  }

  // ----- typing

  /** A typing notice with the recipient connected goes out as it is to the socket that the recipient
      connected last, and starts or ends the sender's typing there; with the recipient away nothing
      happens. */
  lemma TypingNoticeTold(w: World, steps: seq<Step>, sender: UserId, receiver: UserId, isTyping: bool)
    requires ValidRun(Initial(w), steps + [TypingArrives(sender, receiver, isTyping)])
    ensures ValidRun(Initial(w), steps)
    ensures var s := Run(Initial(w), steps);
            var s' := Run(Initial(w), steps + [TypingArrives(sender, receiver, isTyping)]);
            match Registered(steps, receiver)
            case None => s' == s
            case Some(socket) =>
              && s'.outbox == s.outbox + [TypingFlag(socket, isTyping)]
              && s'.typing.log == s.typing.log
                 + [if isTyping then Typing.Started(sender, socket, s.typing.now)
                    else Typing.Stopped(sender, s.typing.now)]
              && (!isTyping ==> forall id :: id in s'.typing.timers ==> s'.typing.timers[id].sender != sender)
              && (isTyping ==> exists id :: id in s'.typing.timers && s'.typing.timers[id]
                                 == Typing.Pending(sender, socket, s.typing.now + 5 * 1000))
  {
    RunSnoc(Initial(w), steps, TypingArrives(sender, receiver, isTyping));
    SocketMapExact(w, steps, receiver);
    Guarantees.Reachable(w, steps);
    var s := Run(Initial(w), steps);
    if receiver in s.connected {
      NoticeTimers(s.typing, sender, s.connected[receiver], isTyping);
    }
  }

  lemma NoticeTimers(s: Typing.State, sender: UserId, socket: SocketId, isTyping: bool)
    requires Typing.Invariant(s)
    ensures var s' := Typing.Apply(s, if isTyping then Typing.Init(sender, socket) else Typing.Remove(sender));
            && (!isTyping ==> forall id :: id in s'.timers ==> s'.timers[id].sender != sender)
            && (isTyping ==> s.nextId in s'.timers
                             && s'.timers[s.nextId] == Typing.Pending(sender, socket, s.now + 5 * 1000))
  {
  }

  // ----- what the other steps send out

  /** A connection is greeted, once and at once, and is registered; these steps send out nothing. */
  predicate IsSilent(step: Step) {
    step.SendArrives? || step.CheckUnique? || step.CheckFriendship? || step.CreateMessage?
    || step.AddLastSent? || step.SendFails? || step.Query? || step.ConnectFails? || step.Disconnect?
    || step.TokenTimer? || step.TimePasses? || step.FriendCall?
  }

  lemma SilentSteps(w: World, steps: seq<Step>, step: Step)
    requires ValidRun(Initial(w), steps + [step]) && IsSilent(step)
    ensures ValidRun(Initial(w), steps)
    ensures Run(Initial(w), steps + [step]).outbox == Run(Initial(w), steps).outbox
  {
    RunSnoc(Initial(w), steps, step);
    if IsSendStep(step) {
      SendStepFrame(Run(Initial(w), steps), step);
    }
  }

  lemma ConnectGreets(w: World, steps: seq<Step>, k: SocketId, user: UserId, offset: MessageId, chat: ChatId)
    requires ValidRun(Initial(w), steps + [Connect(k, user, offset, chat)])
    ensures ValidRun(Initial(w), steps)
    ensures var s, s' := Run(Initial(w), steps), Run(Initial(w), steps + [Connect(k, user, offset, chat)]);
            && s'.outbox == s.outbox + [Greeting(k)]
            && user in s'.connected && s'.connected[user] == k
            && k in s'.connects && s'.connects[k].user == user
            && s'.connects[k].phase == if offset != 0 && chat != 0 then Querying else Connected
  {
    RunSnoc(Initial(w), steps, Connect(k, user, offset, chat));
  }

  // ----- a connection

  /** The query sees exactly the rows that there are at its own moment, by rising id. */
  lemma QueryTold(w: World, steps: seq<Step>, k: SocketId)
    requires ValidRun(Initial(w), steps + [Query(k)])
    ensures ValidRun(Initial(w), steps)
    ensures var s, s' := Run(Initial(w), steps), Run(Initial(w), steps + [Query(k)]);
            && k in s.connects && k in s'.connects && s'.connects[k].phase.Fetched?
            && var messages := s'.connects[k].phase.messages;
               && Ascending(messages)
               && (forall m :: m in messages <==>
                     m in s.rows && m.directChatId == s.connects[k].chat && m.id > s.connects[k].offset)
               && s' == s.(connects := s.connects[k := s.connects[k].(phase := Fetched(messages))])
  {
    RunSnoc(Initial(w), steps, Query(k));
    Guarantees.Reachable(w, steps);
    var s := Run(Initial(w), steps);
    NewerMembers(s.rows, s.connects[k].chat, s.connects[k].offset);
  }

  /** What was fetched goes out to the connection's own socket, unless there is nothing. */
  lemma RecoverTold(w: World, steps: seq<Step>, k: SocketId)
    requires ValidRun(Initial(w), steps + [Recover(k)])
    ensures ValidRun(Initial(w), steps)
    ensures var s, s' := Run(Initial(w), steps), Run(Initial(w), steps + [Recover(k)]);
            && k in s.connects && s.connects[k].phase.Fetched?
            && var messages := s.connects[k].phase.messages;
               && s'.outbox == s.outbox + (if |messages| > 0 then [Recovered(k, messages)] else [])
               && s' == s.(outbox := s'.outbox,
                           connects := s.connects[k := s.connects[k].(phase := Connected)])
  {
    RunSnoc(Initial(w), steps, Recover(k));
  }

  /** A query that throws closes the connection and changes nothing else. */
  lemma FailedQueryTold(w: World, steps: seq<Step>, k: SocketId)
    requires ValidRun(Initial(w), steps + [ConnectFails(k)])
    ensures ValidRun(Initial(w), steps)
    ensures var s, s' := Run(Initial(w), steps), Run(Initial(w), steps + [ConnectFails(k)]);
            && k in s.connects && s.connects[k].phase != Connected
            && s' == s.(connects := s.connects[k := s.connects[k].(phase := Closed)])
  {
    RunSnoc(Initial(w), steps, ConnectFails(k));
  }

  // ----- recovery sends nothing else

  /** Rows that the connection asked for. */
  ghost predicate Wanted(rows: seq<Message>, c: ConnectTask, messages: seq<Message>) {
    forall m :: m in messages ==> m in rows && m.directChatId == c.chat && m.id > c.offset
  }

  ghost predicate FetchedWanted(s: State) {
    forall k :: k in s.connects && s.connects[k].phase.Fetched? ==>
      Wanted(s.rows, s.connects[k], s.connects[k].phase.messages)
  }

  ghost predicate RecoveredWanted(s: State) {
    forall i :: 0 <= i < |s.outbox| && s.outbox[i].Recovered? ==>
      && s.outbox[i].messages != [] && s.outbox[i].socket in s.connects
      && Wanted(s.rows, s.connects[s.outbox[i].socket], s.outbox[i].messages)
  }

  /** What a step other than a query or a recovery does to all this. */
  ghost predicate Unrecovered(s: State, s': State) {
    && s.rows <= s'.rows
    && (forall k :: k in s.connects ==>
          k in s'.connects && s'.connects[k].chat == s.connects[k].chat
          && s'.connects[k].offset == s.connects[k].offset)
    && (forall k :: k in s'.connects && s'.connects[k].phase.Fetched? ==>
          k in s.connects && s.connects[k].phase == s'.connects[k].phase)
    && s.outbox <= s'.outbox
    && (forall i :: |s.outbox| <= i < |s'.outbox| ==> !s'.outbox[i].Recovered?)
  }

  lemma UnrecoveredKeeps(s: State, s': State)
    requires FetchedWanted(s) && RecoveredWanted(s) && Unrecovered(s, s')
    ensures FetchedWanted(s') && RecoveredWanted(s')
  {
    forall i | 0 <= i < |s'.outbox| && s'.outbox[i].Recovered?
      ensures s'.outbox[i].messages != [] && s'.outbox[i].socket in s'.connects
      ensures Wanted(s'.rows, s'.connects[s'.outbox[i].socket], s'.outbox[i].messages)
    {
      assert s'.outbox[i] == s.outbox[i];
    }
  }

  lemma SendUnrecovered(s: State, step: Step)
    requires Enabled(s, step) && IsSendStep(step)
    ensures Unrecovered(s, Apply(s, step))
  {
    SendStepFrame(s, step);
  }

  lemma OtherUnrecovered(s: State, step: Step)
    requires Enabled(s, step) && !IsSendStep(step) && !step.Query? && !step.Recover?
    ensures Unrecovered(s, Apply(s, step))
  {
  }

  lemma QueryWanted(s: State, k: SocketId)
    requires Invariant(s) && Enabled(s, Query(k)) && FetchedWanted(s) && RecoveredWanted(s)
    ensures FetchedWanted(DoQuery(s, k)) && RecoveredWanted(DoQuery(s, k))
  {
    NewerMembers(s.rows, s.connects[k].chat, s.connects[k].offset);
  }

  lemma RecoverWanted(s: State, k: SocketId)
    requires Enabled(s, Recover(k)) && FetchedWanted(s) && RecoveredWanted(s)
    ensures FetchedWanted(DoRecover(s, k)) && RecoveredWanted(DoRecover(s, k))
  {
    assert Wanted(s.rows, s.connects[k], s.connects[k].phase.messages);
  }

  lemma {:induction false} RunWanted(s: State, steps: seq<Step>)
    requires Invariant(s) && ValidRun(s, steps) && FetchedWanted(s) && RecoveredWanted(s)
    ensures FetchedWanted(Run(s, steps)) && RecoveredWanted(Run(s, steps))
    decreases |steps|
  {
    if steps != [] {
      var step := steps[0];
      StepInvariant(s, step);
      if step.Query? {
        QueryWanted(s, step.socket);
      } else if step.Recover? {
        RecoverWanted(s, step.socket);
      } else {
        if IsSendStep(step) { SendUnrecovered(s, step); } else { OtherUnrecovered(s, step); }
        UnrecoveredKeeps(s, Apply(s, step));
      }
      RunWanted(Apply(s, step), steps[1..]);
    }
  }

  /** Over every run a recovery is never empty and holds nothing but stored rows of the chat and above
      the offset that its connection named. */
  lemma RecoveredOnlyWanted(w: World, steps: seq<Step>, i: nat)
    requires ValidRun(Initial(w), steps)
    requires i < |Run(Initial(w), steps).outbox| && Run(Initial(w), steps).outbox[i].Recovered?
    ensures var s := Run(Initial(w), steps);
            var e := s.outbox[i];
            && e.messages != [] && e.socket in s.connects
            && forall m :: m in e.messages ==>
                 m in s.rows && m.directChatId == s.connects[e.socket].chat && m.id > s.connects[e.socket].offset
  {
    InitialInvariant(w);
    RunWanted(Initial(w), steps);
  }

  // ----- a send

  /** The friend check of a send goes through exactly when one of the two has once asked the other with
      success, and the send is refused otherwise. */
  lemma FriendCheckTold(w: World, steps: seq<Step>, t: TaskId)
    requires ValidRun(Initial(w), steps + [CheckFriendship(t)])
    ensures ValidRun(Initial(w), steps) && Arrived(steps, t).Some?
    ensures var s, s' := Run(Initial(w), steps), Run(Initial(w), steps + [CheckFriendship(t)]);
            var a := Arrived(steps, t).value;
            && t in s.sends
            && s' == s.(sends := s.sends[t := s.sends[t].(phase :=
                 if Requests.AskedIn(Requests.Empty(w.users), FriendCalls(steps), a.author, a.payload.receiverId)
                 then Vetted else Refused)])
  {
    RunSnoc(Initial(w), steps, CheckFriendship(t));
    ArrivedExactly(w, steps, t);
    RequestsTold(w, steps);
    var a := Arrived(steps, t).value;
    Requests.FriendsExactlyAsked(Requests.Empty(w.users), FriendCalls(steps), a.author,
                                 a.payload.receiverId);
  }

  /** The update makes the row of the send its chat's last sent message, and changes no other chat. */
  lemma UpdateTold(w: World, steps: seq<Step>, t: TaskId)
    requires ValidRun(Initial(w), steps + [AddLastSent(t)])
    ensures ValidRun(Initial(w), steps)
    ensures var s, s' := Run(Initial(w), steps), Run(Initial(w), steps + [AddLastSent(t)]);
            && t in s.sends && s.sends[t].phase.Stored?
            && var m := s.sends[t].phase.message;
               && m in s.rows && m.directChatId in s.chats
               && s' == s.(sends := s.sends[t := s.sends[t].(phase := Pointed(m))],
                           chats := s.chats[m.directChatId := Some(m.id)])
  {
    RunSnoc(Initial(w), steps, AddLastSent(t));
    Guarantees.Reachable(w, steps);
    WorldKept(w, steps);
    Guarantees.NeverTaken(Run(Initial(w), steps), t);
    RowChatKnown(w, steps, Run(Initial(w), steps).sends[t].phase.message);
  }

  lemma {:induction false} RowChatKnown(w: World, steps: seq<Step>, m: Message)
    requires ValidRun(Initial(w), steps) && m in Run(Initial(w), steps).rows
    ensures m.directChatId in w.chats
    decreases |steps|
  {
    if steps != [] {
      var front, last := steps[..|steps| - 1], steps[|steps| - 1];
      assert steps == front + [last];
      RunSnoc(Initial(w), front, last);
      var s := Run(Initial(w), front);
      if m in s.rows {
        RowChatKnown(w, front, m);
      } else {
        WorldKept(w, front);
        NewRowChat(s, last, m);
      }
    }
  }

  lemma NewRowChat(s: State, step: Step, m: Message)
    requires Enabled(s, step) && m in Apply(s, step).rows && m !in s.rows
    ensures m.directChatId in s.chats
  {
    if IsSendStep(step) { SendStepFrame(s, step); } else { OtherStepFrame(s, step); }
  }

  /** An insert stores the row asked for exactly when the chat is known, a sticker is a known one, and no
      row has the same chat and the same time; otherwise the send is refused. The id is used up in
      either case. */
  lemma InsertTold(w: World, steps: seq<Step>, t: TaskId)
    requires ValidRun(Initial(w), steps + [CreateMessage(t)])
    ensures ValidRun(Initial(w), steps) && Arrived(steps, t).Some?
    ensures var s, s' := Run(Initial(w), steps), Run(Initial(w), steps + [CreateMessage(t)]);
            var a := Arrived(steps, t).value;
            && t in s'.sends && s'.nextId == s.nextId + 1
            && if a.payload.directChatId in w.chats
                  && (a.payload.kind == STICKER ==> a.payload.content in w.stickers)
                  && (forall n :: n in s.rows ==>
                        n.directChatId != a.payload.directChatId || n.createdAt != a.payload.timestamp)
               then
                 s'.sends[t].phase.Stored?
                 && var m := s'.sends[t].phase.message;
                    RowFor(m, a.author, a.payload) && m.id == s.nextId && s'.rows == s.rows + [m]
               else s'.sends[t].phase == Refused && s'.rows == s.rows
  {
    RunSnoc(Initial(w), steps, CreateMessage(t));
    ArrivedExactly(w, steps, t);
    Guarantees.Reachable(w, steps);
    WorldKept(w, steps);
    var s := Run(Initial(w), steps);
    var k := s.sends[t];
    assert TaskSound(k, s.tokens.log, s.requests.requests, s.rows);
    Requests.FriendsKnown(s.requests, k.author, k.payload.receiverId);
    InsertExactly(s.rows, Known(s), RowOf(s.nextId, k.author, k.payload));
  }

  lemma KeptByStep(s: State, step: Step)
    requires Enabled(s, step)
    ensures Apply(s, step).stickers == s.stickers && Apply(s, step).chats.Keys == s.chats.Keys
  {
    if IsSendStep(step) { SendStepFrame(s, step); } else { OtherStepFrame(s, step); }
  }

  lemma {:induction false} WorldKept(w: World, steps: seq<Step>)
    requires ValidRun(Initial(w), steps)
    ensures Run(Initial(w), steps).stickers == w.stickers && Run(Initial(w), steps).chats.Keys == w.chats
    decreases |steps|
  {
    if steps != [] {
      var front, last := steps[..|steps| - 1], steps[|steps| - 1];
      assert steps == front + [last];
      RunSnoc(Initial(w), front, last);
      WorldKept(w, front);
      KeptByStep(Run(Initial(w), front), last);
    }
  }

  ghost predicate KeysApart(rows: seq<Message>) {
    forall i, j :: 0 <= i < j < |rows| ==>
      rows[i].directChatId != rows[j].directChatId || rows[i].createdAt != rows[j].createdAt
  }

  lemma StepKeysApart(s: State, step: Step)
    requires Enabled(s, step) && KeysApart(s.rows)
    ensures KeysApart(Apply(s, step).rows)
  {
    if step.CreateMessage? {
      var k := s.sends[step.task];
      InsertExactly(s.rows, Known(s), RowOf(s.nextId, k.author, k.payload));
    } else if IsSendStep(step) {
      SendStepFrame(s, step);
    } else {
      OtherStepFrame(s, step);
    }
  }

  lemma {:induction false} RunKeysApart(s: State, steps: seq<Step>)
    requires ValidRun(s, steps) && KeysApart(s.rows)
    ensures KeysApart(Run(s, steps).rows)
    decreases |steps|
  {
    if steps != [] {
      StepKeysApart(s, steps[0]);
      RunKeysApart(Apply(s, steps[0]), steps[1..]);
    }
  }

  /** Over every run no two rows have the same chat and the same time. */
  lemma RowsKeyed(w: World, steps: seq<Step>, i: nat, j: nat)
    requires ValidRun(Initial(w), steps) && i < j < |Run(Initial(w), steps).rows|
    ensures var rows := Run(Initial(w), steps).rows;
            rows[i].directChatId != rows[j].directChatId || rows[i].createdAt != rows[j].createdAt
  {
    RunKeysApart(Initial(w), steps);
  }

  // ----- failures

  /** A send that throws is over, its row kept if it had one, and changes nothing else. */
  lemma FailedSendIsOver(w: World, steps: seq<Step>, t: TaskId)
    requires ValidRun(Initial(w), steps + [SendFails(t)])
    ensures ValidRun(Initial(w), steps)
    ensures var s, s' := Run(Initial(w), steps), Run(Initial(w), steps + [SendFails(t)]);
            && t in s.sends && t in s'.sends
            && (match s.sends[t].phase
                case Stored(m) => s'.sends[t].phase == Lost(m)
                case Pointed(m) => s'.sends[t].phase == Lost(m)
                case _ => s'.sends[t].phase == Refused)
            && s' == s.(sends := s'.sends)
            && (forall u :: u in s.sends && u != t ==> u in s'.sends && s'.sends[u] == s.sends[u])
  {
    RunSnoc(Initial(w), steps, SendFails(t));
  }

  /** And a send that is over stays as it is. */
  lemma {:induction false} OverStays(s: State, steps: seq<Step>, t: TaskId)
    requires ValidRun(s, steps) && t in s.sends && Finished(s.sends[t].phase)
    ensures t in Run(s, steps).sends && Run(s, steps).sends[t] == s.sends[t]
    decreases |steps|
  {
    if steps != [] {
      if IsSendStep(steps[0]) { SendStepFrame(s, steps[0]); } else { OtherStepFrame(s, steps[0]); }
      OverStays(Apply(s, steps[0]), steps[1..], t);
    }
  }
}
