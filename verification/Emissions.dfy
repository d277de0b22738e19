/** What the gateway sends out over whole runs: echoes to authors, the socket a live message goes to,
    typing flags; and the exact outcome of a send that nothing interrupts. */
module Emissions {
  import opened Domain
  import opened Wrappers
  import opened Messages
  import opened Gateway
  import opened GatewayInvariant
  import Requests = FriendRequests
  import Tokens = MessageTokens
  import Typing
  import Guarantees

  // ----- echoes

  ghost predicate HasEcho(outbox: seq<Emission>, k: SocketId, m: Message) {
    exists i :: 0 <= i < |outbox| && outbox[i] == Echo(k, m)
  }

  ghost predicate DoneEchoed(outbox: seq<Emission>, sends: Sends) {
    forall t, m :: IsDone(sends, t, m) ==> HasEcho(outbox, sends[t].socket, m)
  }

  ghost predicate EchoesDone(outbox: seq<Emission>, sends: Sends) {
    forall i :: 0 <= i < |outbox| && outbox[i].Echo? ==>
      exists t :: IsDone(sends, t, outbox[i].message) && sends[t].socket == outbox[i].socket
  }

  ghost predicate EchoOnce(outbox: seq<Emission>) {
    forall i, j :: 0 <= i < j < |outbox| && outbox[i].Echo? && outbox[j].Echo? ==>
      outbox[i].message != outbox[j].message
  }

  ghost predicate Echoes(outbox: seq<Emission>, sends: Sends) {
    DoneEchoed(outbox, sends) && EchoesDone(outbox, sends) && EchoOnce(outbox)
  }

  ghost predicate SameDone(sends: Sends, sends': Sends) {
    forall t, m :: IsDone(sends', t, m) <==> IsDone(sends, t, m) && t in sends' && sends'[t] == sends[t]
  }

  lemma EchoesKept(outbox: seq<Emission>, sends: Sends, sends': Sends)
    requires Echoes(outbox, sends) && SameDone(sends, sends')
    requires forall t, m :: IsDone(sends, t, m) ==> IsDone(sends', t, m)
    ensures Echoes(outbox, sends')
  {
    forall i | 0 <= i < |outbox| && outbox[i].Echo?
      ensures exists t :: IsDone(sends', t, outbox[i].message) && sends'[t].socket == outbox[i].socket
    {
      var t :| IsDone(sends, t, outbox[i].message) && sends[t].socket == outbox[i].socket;
      assert IsDone(sends', t, outbox[i].message);
    }
  }

  lemma OtherEmitted(outbox: seq<Emission>, e: Emission, sends: Sends)
    requires Echoes(outbox, sends) && !e.Echo?
    ensures Echoes(outbox + [e], sends)
  {
    forall t, m | IsDone(sends, t, m) ensures HasEcho(outbox + [e], sends[t].socket, m) {
      var i :| 0 <= i < |outbox| && outbox[i] == Echo(sends[t].socket, m);
      assert (outbox + [e])[i] == outbox[i];
    }
  }

  /** A send is done and echoed at once. */
  lemma DoneAndEchoed(outbox: seq<Emission>, sends: Sends, t: TaskId, k: SendTask, m: Message)
    requires Echoes(outbox, sends) && HeldApart(sends)
    requires t in sends && sends[t].phase == Pointed(m) && k.phase == Done(m)
    ensures Echoes(outbox + [Echo(k.socket, m)], sends[t := k])
  {
    var outbox', sends' := outbox + [Echo(k.socket, m)], sends[t := k];
    assert Holds(sends, t, m);
    forall u, n | IsDone(sends', u, n) ensures HasEcho(outbox', sends'[u].socket, n) {
      if u == t {
        assert outbox'[|outbox|] == Echo(k.socket, m);
      } else {
        assert IsDone(sends, u, n);
        var i :| 0 <= i < |outbox| && outbox[i] == Echo(sends[u].socket, n);
        assert outbox'[i] == outbox[i];
      }
    }
    forall i | 0 <= i < |outbox'| && outbox'[i].Echo?
      ensures exists u :: IsDone(sends', u, outbox'[i].message) && sends'[u].socket == outbox'[i].socket
      ensures i < |outbox| ==> outbox'[i].message != m
    {
      if i == |outbox| {
        assert IsDone(sends', t, m);
      } else {
        var u :| IsDone(sends, u, outbox[i].message) && sends[u].socket == outbox[i].socket;
        assert Holds(sends, u, outbox[i].message);
        assert IsDone(sends', u, outbox'[i].message);
      }
    }
  }

  lemma EmitEchoes(s: State, t: TaskId)
    requires Invariant(s) && Echoes(s.outbox, s.sends) && Enabled(s, EmitMessage(t))
    ensures Echoes(DoEmitMessage(s, t).outbox, DoEmitMessage(s, t).sends)
  {
    var k := s.sends[t];
    var m, receiver := k.phase.message, k.payload.receiverId;
    if receiver in s.connected {
      var e := Live(s.connected[receiver], m);
      OtherEmitted(s.outbox, e, s.sends);
      EchoAfterLive(s, t, e);
    } else {
      assert s.outbox + [] == s.outbox;
      DoneAndEchoed(s.outbox, s.sends, t, k.(phase := Done(m)), m);
    }
  }

  lemma EchoAfterLive(s: State, t: TaskId, e: Emission)
    requires Enabled(s, EmitMessage(t)) && HeldApart(s.sends)
    requires Echoes(s.outbox + [e], s.sends) && e.Live?
    ensures var k, m := s.sends[t], s.sends[t].phase.message;
            Echoes(s.outbox + [e] + [Echo(k.socket, m)], s.sends[t := k.(phase := Done(m))])
  {
    var k, m := s.sends[t], s.sends[t].phase.message;
    DoneAndEchoed(s.outbox + [e], s.sends, t, k.(phase := Done(m)), m);
  }

  lemma StepEchoes(s: State, step: Step)
    requires Invariant(s) && Echoes(s.outbox, s.sends) && Enabled(s, step)
    ensures Echoes(Apply(s, step).outbox, Apply(s, step).sends)
  {
    var s' := Apply(s, step);
    if step.EmitMessage? {
      EmitEchoes(s, step.task);
    } else if IsSendStep(step) {
      DoneKept(s, step);
      EchoesKept(s.outbox, s.sends, s'.sends);
    } else {
      var e := NoEcho(s, step);
      if s'.outbox != s.outbox {
        OtherEmitted(s.outbox, e, s.sends);
      }
    }
  }

  lemma DoneKept(s: State, step: Step)
    requires Enabled(s, step) && IsSendStep(step) && !step.EmitMessage?
    ensures var s' := Apply(s, step);
            && s'.outbox == s.outbox && s'.typing == s.typing && SameDone(s.sends, s'.sends)
            && forall t, m :: IsDone(s.sends, t, m) ==> IsDone(s'.sends, t, m)
  {
    SendStepFrame(s, step);
    MoveKeepsDone(s.sends, step.task, Apply(s, step).sends[step.task]);
  }

  lemma MoveKeepsDone(sends: Sends, t: TaskId, k: SendTask)
    requires !k.phase.Done? && (t in sends ==> !sends[t].phase.Done?)
    ensures SameDone(sends, sends[t := k])
    ensures forall u, m :: IsDone(sends, u, m) ==> IsDone(sends[t := k], u, m)
  {
  }

  lemma NoEcho(s: State, step: Step) returns (e: Emission)
    requires Enabled(s, step) && !IsSendStep(step)
    ensures var s' := Apply(s, step);
            && s'.sends == s.sends && !e.Echo?
            && (s'.outbox == s.outbox || s'.outbox == s.outbox + [e])
  {
    var s' := Apply(s, step);
    e := if |s'.outbox| > |s.outbox| then s'.outbox[|s.outbox|] else Greeting(0);
  }

  lemma {:induction false} RunEchoes(s: State, steps: seq<Step>)
    requires Invariant(s) && Echoes(s.outbox, s.sends) && ValidRun(s, steps)
    ensures Echoes(Run(s, steps).outbox, Run(s, steps).sends)
    decreases |steps|
  {
    if steps != [] {
      StepInvariant(s, steps[0]);
      StepEchoes(s, steps[0]);
      RunEchoes(Apply(s, steps[0]), steps[1..]);
    }
  }

  /** Over every run: exactly the sends that are done have been echoed, to their own sockets, and no
      message is echoed twice. */
  lemma EchoedExactly(w: World, steps: seq<Step>,
                      k: SocketId, m: Message)
    requires ValidRun(Initial(w), steps)
    ensures var s := Run(Initial(w), steps);
            && (HasEcho(s.outbox, k, m) <==> exists t :: IsDone(s.sends, t, m) && s.sends[t].socket == k)
            && (forall i, j :: 0 <= i < j < |s.outbox| && s.outbox[i] == Echo(k, m) ==>
                  s.outbox[j] != Echo(k, m))
  {
    InitialInvariant(w);
    RunEchoes(Initial(w), steps);
    var s := Run(Initial(w), steps);
    if HasEcho(s.outbox, k, m) {
      var i :| 0 <= i < |s.outbox| && s.outbox[i] == Echo(k, m);
      assert s.outbox[i].Echo?;
    }
  }

  // ----- the socket of a user

  lemma {:induction false} RunSnoc(s: State, steps: seq<Step>, last: Step)
    requires ValidRun(s, steps + [last])
    ensures ValidRun(s, steps) && Enabled(Run(s, steps), last)
    ensures Run(s, steps + [last]) == Apply(Run(s, steps), last)
    decreases |steps|
  {
    if steps == [] {
      assert [last][1..] == [];
      assert steps + [last] == [last];
      assert Run(s, [last]) == Run(Apply(s, last), []);
    } else {
      assert (steps + [last])[1..] == steps[1..] + [last];
      RunSnoc(Apply(s, steps[0]), steps[1..], last);
    }
  }

  /** Read off the steps alone: the socket a user connected last, unless the user has disconnected
      since, by whichever socket. */
  function Registered(steps: seq<Step>, user: UserId): Option<SocketId> {
    if steps == [] then None
    else
      var last := steps[|steps| - 1];
      if last.Connect? && last.user == user then Some(last.socket)
      else if last == Disconnect(user) && user != 0 then None
      else Registered(steps[..|steps| - 1], user)
  }

  /** Over every run the socket map holds for each user the socket that the history names. */
  lemma {:induction false} SocketMapExact(w: World, steps: seq<Step>, user: UserId)
    requires ValidRun(Initial(w), steps)
    ensures var s := Run(Initial(w), steps);
            Registered(steps, user)
            == if user in s.connected then Some(s.connected[user]) else None
    decreases |steps|
  {
    if steps != [] {
      var front, last := steps[..|steps| - 1], steps[|steps| - 1];
      assert steps == front + [last];
      RunSnoc(Initial(w), front, last);
      SocketMapExact(w, front, user);
      ConnectedAfter(Run(Initial(w), front), last, user);
    }
  }

  lemma ConnectedAfter(s: State, step: Step, user: UserId)
    requires Enabled(s, step)
    ensures var s' := Apply(s, step);
            if step.Connect? && step.user == user then
              user in s'.connected && s'.connected[user] == step.socket
            else if step == Disconnect(user) && user != 0 then user !in s'.connected
            else (user in s'.connected <==> user in s.connected)
                 && (user in s.connected ==> s'.connected[user] == s.connected[user])
  {
  }

  /** The emissions of a finished send: the new message goes to the socket its recipient connected
      last and still has at that moment, if any, and then to the author's. */
  lemma LiveToRegistered(w: World, steps: seq<Step>, t: TaskId)
    requires ValidRun(Initial(w), steps + [EmitMessage(t)])
    ensures ValidRun(Initial(w), steps)
    ensures var s := Run(Initial(w), steps);
            var s' := Run(Initial(w), steps + [EmitMessage(t)]);
            t in s.sends && Held(s.sends[t].phase).Some?
            && var m := Held(s.sends[t].phase).value;
               m in s.rows && m.authorId == s.sends[t].author
               && s'.outbox == s.outbox + (match Registered(steps, m.recipientId)
                                           case None => []
                                           case Some(k) => [Live(k, m)])
                               + [Echo(s.sends[t].socket, m)]
               && s' == s.(outbox := s'.outbox, sends := s.sends[t := s.sends[t].(phase := Done(m))])
  {
    RunSnoc(Initial(w), steps, EmitMessage(t));
    Guarantees.Reachable(w, steps);
    var s := Run(Initial(w), steps);
    assert TaskSound(s.sends[t], s.tokens.log, s.requests.requests, s.rows);
    SocketMapExact(w, steps, s.sends[t].phase.message.recipientId);
  }

  // ----- typing flags

  /** The typing emissions, in order. */
  function Flags(outbox: seq<Emission>): seq<(SocketId, bool)> {
    if outbox == [] then []
    else
      var last, front := outbox[|outbox| - 1], Flags(outbox[..|outbox| - 1]);
      if last.TypingFlag? then front + [(last.socket, last.isTyping)] else front
  }

  lemma FlagsSnoc(outbox: seq<Emission>, e: Emission)
    ensures Flags(outbox + [e])
            == Flags(outbox) + if e.TypingFlag? then [(e.socket, e.isTyping)] else []
  {
    assert (outbox + [e])[..|outbox|] == outbox;
  }

  predicate FlagOf(f: (SocketId, bool), e: Typing.Entry) {
    match e
    case Started(_, socket, _) => f == (socket, true)
    case Stopped(_, _) => !f.1
    case NotTyping(_, socket, _, _) => f == (socket, false)
  }

  /** One typing emission for each act of the typing manager. */
  ghost predicate FlagsMatch(flags: seq<(SocketId, bool)>, log: seq<Typing.Entry>) {
    |flags| == |log| && forall i :: 0 <= i < |log| ==> FlagOf(flags[i], log[i])
  }

  lemma FlagsMatchSnoc(flags: seq<(SocketId, bool)>, log: seq<Typing.Entry>, f: (SocketId, bool),
                       e: Typing.Entry)
    requires FlagsMatch(flags, log) && FlagOf(f, e)
    ensures FlagsMatch(flags + [f], log + [e])
  {
  }

  lemma StepFlagsMatch(s: State, step: Step)
    requires Enabled(s, step) && FlagsMatch(Flags(s.outbox), s.typing.log)
    ensures FlagsMatch(Flags(Apply(s, step).outbox), Apply(s, step).typing.log)
  {
    match step {
      case EmitMessage(t) => EmitFlags(s, t);
      case TypingArrives(sender, receiver, isTyping) => TypingFlags(s, sender, receiver, isTyping);
      case TypingTimer(id) => TimerFlags(s, id);
      case Connect(socket, _, _, _) => FlagsSnoc(s.outbox, Greeting(socket));
      case Recover(socket) => RecoverFlags(s, socket);
      case _ => NoFlags(s, step);
    }
  }

  lemma TypingFlags(s: State, sender: UserId, receiver: UserId, isTyping: bool)
    requires FlagsMatch(Flags(s.outbox), s.typing.log)
    ensures var s' := DoTyping(s, sender, receiver, isTyping);
            FlagsMatch(Flags(s'.outbox), s'.typing.log)
  {
    if receiver in s.connected {
      var socket := s.connected[receiver];
      FlagsSnoc(s.outbox, TypingFlag(socket, isTyping));
      FlagsMatchSnoc(Flags(s.outbox), s.typing.log, (socket, isTyping),
                     if isTyping then Typing.Started(sender, socket, s.typing.now)
                     else Typing.Stopped(sender, s.typing.now));
    }
  }

  lemma TimerFlags(s: State, id: TimerId)
    requires Enabled(s, TypingTimer(id)) && FlagsMatch(Flags(s.outbox), s.typing.log)
    ensures FlagsMatch(Flags(DoTypingTimer(s, id).outbox), DoTypingTimer(s, id).typing.log)
  {
    var t := s.typing.timers[id];
    FlagsSnoc(s.outbox, TypingFlag(t.socket, false));
    FlagsMatchSnoc(Flags(s.outbox), s.typing.log, (t.socket, false),
                   Typing.NotTyping(t.sender, t.socket, t.due, s.typing.now));
  }

  lemma RecoverFlags(s: State, socket: SocketId)
    requires Enabled(s, Recover(socket))
    ensures Flags(DoRecover(s, socket).outbox) == Flags(s.outbox)
  {
    FlagsSnoc(s.outbox, Recovered(socket, s.connects[socket].phase.messages));
    assert s.outbox + [] == s.outbox;
  }

  lemma NoFlags(s: State, step: Step)
    requires Enabled(s, step)
    requires !step.EmitMessage? && !step.TypingArrives? && !step.TypingTimer? && !step.Connect?
             && !step.Recover?
    ensures Apply(s, step).outbox == s.outbox && Apply(s, step).typing.log == s.typing.log
  {
    if IsSendStep(step) {
      DoneKept(s, step);
    }
  }

  lemma EmitFlags(s: State, t: TaskId)
    requires Enabled(s, EmitMessage(t))
    ensures Flags(DoEmitMessage(s, t).outbox) == Flags(s.outbox)
  {
    var k := s.sends[t];
    var m, receiver := k.phase.message, k.payload.receiverId;
    if receiver in s.connected {
      var e := Live(s.connected[receiver], m);
      FlagsSnoc(s.outbox, e);
      FlagsSnoc(s.outbox + [e], Echo(k.socket, m));
    } else {
      assert s.outbox + [] == s.outbox;
      FlagsSnoc(s.outbox, Echo(k.socket, m));
    }
  }

  lemma {:induction false} RunFlagsMatch(s: State, steps: seq<Step>)
    requires FlagsMatch(Flags(s.outbox), s.typing.log) && ValidRun(s, steps)
    ensures FlagsMatch(Flags(Run(s, steps).outbox), Run(s, steps).typing.log)
    decreases |steps|
  {
    if steps != [] {
      StepFlagsMatch(s, steps[0]);
      RunFlagsMatch(Apply(s, steps[0]), steps[1..]);
    }
  }

  /** Over every run the typing flags that went out are those of the manager's acts, one for one and
      in order; and one that a timer sent belongs to a sender whose last act was to start typing at
      that very socket, five seconds before the timer was due. */
  lemma TypingFlagsTrace(w: World, steps: seq<Step>, j: nat)
    requires ValidRun(Initial(w), steps)
    ensures var s := Run(Initial(w), steps);
            && FlagsMatch(Flags(s.outbox), s.typing.log)
            && (j < |s.typing.log| && s.typing.log[j].NotTyping? ==>
                  var e := s.typing.log[j];
                  && e.due <= e.at && Flags(s.outbox)[j] == (e.socket, false)
                  && Typing.LastOf(s.typing.log[..j], e.sender)
                     == Some(Typing.Started(e.sender, e.socket, e.due - 5 * 1000)))
  {
    RunFlagsMatch(Initial(w), steps);
    Guarantees.Reachable(w, steps);
  }

  // ----- an uninterrupted send

  /** What each check of a send asks for, put together. */
  ghost predicate Accepts(s: State, author: UserId, p: Payload) {
    && p.token !in Tokens.ListOf(s.tokens.lists, author)
    && Requests.IsFriend(s.requests.requests, author, p.receiverId)
    && p.directChatId in s.chats
    && (p.kind == STICKER ==> p.content in s.stickers)
    && (forall m :: m in s.rows ==> m.directChatId != p.directChatId || m.createdAt != p.timestamp)
  }

  function Sending(t: TaskId): seq<Step> {
    [CheckUnique(t), CheckFriendship(t), CreateMessage(t), AddLastSent(t), EmitMessage(t)]
  }

  lemma RunFrom(s: State, steps: seq<Step>, i: nat)
    requires i < |steps|
    ensures ValidRun(s, steps[i..]) <==>
            Enabled(s, steps[i]) && ValidRun(Apply(s, steps[i]), steps[i + 1..])
    ensures ValidRun(s, steps[i..]) ==> Run(s, steps[i..]) == Run(Apply(s, steps[i]), steps[i + 1..])
  {
    assert steps[i..][1..] == steps[i + 1..];
  }

  /** The row that a payload asks for. */
  predicate RowFor(m: Message, author: UserId, p: Payload) {
    && m.authorId == author && m.recipientId == p.receiverId && m.status == SENT
    && m.directChatId == p.directChatId && m.createdAt == p.timestamp && m.kind == p.kind
    && (p.kind == TEXT ==> m.content == p.content && m.stickerUrl == None)
    && (p.kind == STICKER ==> m.content == "" && m.stickerUrl == Some(p.content))
  }

  /** What an accepted send leaves behind. */
  ghost predicate Sent(s: State, s': State, t: TaskId, m: Message) {
    && t in s.sends && t in s'.sends && s'.sends[t].phase == Done(m)
    && m.id == s.nextId && s'.rows == s.rows + [m]
    && s'.chats == s.chats[m.directChatId := Some(m.id)]
    && Tokens.ListOf(s'.tokens.lists, m.authorId)
       == Tokens.ListOf(s.tokens.lists, m.authorId) + [s.sends[t].payload.token]
    && s'.outbox == s.outbox + (if m.recipientId in s.connected
                                then [Live(s.connected[m.recipientId], m)] else [])
                    + [Echo(s.sends[t].socket, m)]
  }

  /** The state after the three checks, each of which may refuse. */
  function Checked(s: State, t: TaskId): State
    requires t in s.sends
  {
    DoCreateMessage(DoCheckFriendship(DoCheckUnique(s, t), t), t)
  }

  ghost predicate ChecksPass(s: State, t: TaskId)
    requires t in s.sends
  {
    && Enabled(s, CheckUnique(t))
    && Enabled(DoCheckUnique(s, t), CheckFriendship(t))
    && Enabled(DoCheckFriendship(DoCheckUnique(s, t), t), CreateMessage(t))
    && Enabled(Checked(s, t), AddLastSent(t))
  }

  lemma ChecksPassExactly(s: State, t: TaskId)
    requires Requests.Consistent(s.requests) && t in s.sends && s.sends[t].phase == Authenticated
    ensures ChecksPass(s, t) <==> Accepts(s, s.sends[t].author, s.sends[t].payload)
  {
    Requests.FriendsKnown(s.requests, s.sends[t].author, s.sends[t].payload.receiverId);
    InsertExactly(s.rows, Known(s), RowOf(s.nextId, s.sends[t].author, s.sends[t].payload));
  }

  lemma CheckedInvariant(s: State, t: TaskId)
    requires Invariant(s) && t in s.sends && ChecksPass(s, t)
    ensures Invariant(Checked(s, t))
  {
    StepInvariant(s, CheckUnique(t));
    StepInvariant(DoCheckUnique(s, t), CheckFriendship(t));
    StepInvariant(DoCheckFriendship(DoCheckUnique(s, t), t), CreateMessage(t));
  }

  lemma CheckedState(s: State, t: TaskId)
    requires t in s.sends && ChecksPass(s, t)
    ensures var k, s' := s.sends[t], Checked(s, t);
            && s'.sends[t].socket == k.socket
            && var m := s'.sends[t].phase.message;
               && RowFor(m, k.author, k.payload) && m.id == s.nextId && m.directChatId in s.chats
               && s'.rows == s.rows + [m] && s'.chats == s.chats && s'.connected == s.connected
               && s'.outbox == s.outbox
               && Tokens.ListOf(s'.tokens.lists, k.author)
                  == Tokens.ListOf(s.tokens.lists, k.author) + [k.payload.token]
  {
    VettedState(s, t);
    StoredState(DoCheckFriendship(DoCheckUnique(s, t), t), t);
  }

  lemma VettedState(s: State, t: TaskId)
    requires t in s.sends && Enabled(s, CheckUnique(t)) && Enabled(DoCheckUnique(s, t), CheckFriendship(t))
    ensures var k, s' := s.sends[t], DoCheckFriendship(DoCheckUnique(s, t), t);
            && s'.sends[t].socket == k.socket && s'.sends[t].author == k.author
            && s'.sends[t].payload == k.payload && s'.nextId == s.nextId
            && s'.rows == s.rows && s'.chats == s.chats && s'.connected == s.connected
            && s'.outbox == s.outbox
            && Tokens.ListOf(s'.tokens.lists, k.author)
               == Tokens.ListOf(s.tokens.lists, k.author) + [k.payload.token]
  {
  }

  lemma StoredState(s: State, t: TaskId)
    requires Enabled(s, CreateMessage(t)) && Enabled(DoCreateMessage(s, t), AddLastSent(t))
    ensures var k, s' := s.sends[t], DoCreateMessage(s, t);
            && s'.sends[t].socket == k.socket
            && var m := s'.sends[t].phase.message;
               && RowFor(m, k.author, k.payload) && m.id == s.nextId && m.directChatId in s.chats
               && s'.rows == s.rows + [m] && s'.chats == s.chats && s'.connected == s.connected
               && s'.outbox == s.outbox && s'.tokens == s.tokens
  {
  }

  /** The end of a send whose row is stored. */
  lemma PointsAndEmits(s: State, t: TaskId)
    requires Invariant(s) && Enabled(s, AddLastSent(t))
    requires s.sends[t].phase.message.directChatId in s.chats
    ensures Enabled(DoAddLastSent(s, t), EmitMessage(t))
    ensures var k, m := s.sends[t], s.sends[t].phase.message;
            var s' := DoEmitMessage(DoAddLastSent(s, t), t);
            && s'.sends[t].phase == Done(m) && s'.rows == s.rows && s'.tokens == s.tokens
            && s'.chats == s.chats[m.directChatId := Some(m.id)]
            && s'.outbox == s.outbox + (if m.recipientId in s.connected
                                        then [Live(s.connected[m.recipientId], m)] else [])
                            + [Echo(k.socket, m)]
  {
    Guarantees.NeverTaken(s, t);
    assert TaskSound(s.sends[t], s.tokens.log, s.requests.requests, s.rows);
  }

  lemma ValidSteps(s: State, t: TaskId)
    requires t in s.sends
    ensures ValidRun(s, Sending(t)) <==>
            ChecksPass(s, t) && Enabled(DoAddLastSent(Checked(s, t), t), EmitMessage(t))
    ensures ValidRun(s, Sending(t)) ==>
              Run(s, Sending(t)) == DoEmitMessage(DoAddLastSent(Checked(s, t), t), t)
  {
    var steps := Sending(t);
    assert steps == steps[0..];
    RunFrom(s, steps, 0);
    if Enabled(s, steps[0]) {
      var s1 := Apply(s, steps[0]);
      RunFrom(s1, steps, 1);
      if Enabled(s1, steps[1]) {
        var s2 := Apply(s1, steps[1]);
        RunFrom(s2, steps, 2);
        if Enabled(s2, steps[2]) {
          ValidStepsEnd(Apply(s2, steps[2]), t);
        }
      }
    }
  }

  lemma ValidStepsEnd(s: State, t: TaskId)
    requires t in s.sends
    ensures ValidRun(s, Sending(t)[3..]) <==>
            Enabled(s, AddLastSent(t)) && Enabled(DoAddLastSent(s, t), EmitMessage(t))
    ensures ValidRun(s, Sending(t)[3..]) ==>
              Run(s, Sending(t)[3..]) == DoEmitMessage(DoAddLastSent(s, t), t)
  {
    var steps := Sending(t);
    RunFrom(s, steps, 3);
    if Enabled(s, steps[3]) {
      var s4 := Apply(s, steps[3]);
      RunFrom(s4, steps, 4);
      assert steps[5..] == [];
    }
  }

  /** From every reachable state a send that nothing interrupts gets through exactly when its token
      is not in use, there is a request between the two users, the chat is known and has no message of
      that instant, and a sticker is a known one; it then stores the row asked for, makes it the
      chat's last sent message and emits it. */
  lemma UninterruptedSendExactly(s: State, t: TaskId)
    requires Invariant(s) && t in s.sends && s.sends[t].phase == Authenticated
    ensures ValidRun(s, Sending(t)) <==> Accepts(s, s.sends[t].author, s.sends[t].payload)
    ensures ValidRun(s, Sending(t)) ==>
              exists m :: RowFor(m, s.sends[t].author, s.sends[t].payload)
                          && Sent(s, Run(s, Sending(t)), t, m)
  {
    ValidSteps(s, t);
    ChecksPassExactly(s, t);
    if ChecksPass(s, t) {
      CheckedInvariant(s, t);
      CheckedState(s, t);
      PointsAndEmits(Checked(s, t), t);
      var m := Checked(s, t).sends[t].phase.message;
      assert RowFor(m, s.sends[t].author, s.sends[t].payload);
    }
  }
}
