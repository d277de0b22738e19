/** When a chat's last sent message is its newest one. A send stores its row in one step and updates
    the chat in a later one, so the updates of two sends can come in the other order. */
module LastSent {
  import opened Domain
  import opened Wrappers
  import opened Messages
  import opened Gateway
  import opened GatewayInvariant
  import opened Guarantees
  import Requests = FriendRequests
  import Tokens = MessageTokens

  predicate AtMost(id: MessageId, lastSent: Option<MessageId>) {
    lastSent.Some? && id <= lastSent.value
  }

  /** What a caller of the update can check: whether the chat names a newer row by then. */
  predicate NamesNewer(chats: map<ChatId, Option<MessageId>>, chat: ChatId, id: MessageId) {
    chat in chats && chats[chat].Some? && chats[chat].value > id
  }

  predicate IsUpdate(s: State, step: Step, chat: ChatId)
    requires Enabled(s, step)
  {
    step.AddLastSent? && s.sends[step.task].phase.message.directChatId == chat
  }

  predicate Guarded(s: State, step: Step, chat: ChatId)
    requires Enabled(s, step)
  {
    IsUpdate(s, step, chat) ==> !NamesNewer(s.chats, chat, s.sends[step.task].phase.message.id)
  }

  ghost predicate AllGuarded(s: State, steps: seq<Step>, chat: ChatId)
    requires ValidRun(s, steps)
    decreases |steps|
  {
    steps != [] ==> Guarded(s, steps[0], chat) && AllGuarded(Apply(s, steps[0]), steps[1..], chat)
  }

  /** A send of the chat throws between its insert and its update of the chat. */
  predicate Abandons(s: State, step: Step, chat: ChatId)
    requires Enabled(s, step)
  {
    step.SendFails? && s.sends[step.task].phase.Stored?
    && s.sends[step.task].phase.message.directChatId == chat
  }

  ghost predicate NeverAbandons(s: State, steps: seq<Step>, chat: ChatId)
    requires ValidRun(s, steps)
    decreases |steps|
  {
    steps != [] ==> !Abandons(s, steps[0], chat) && NeverAbandons(Apply(s, steps[0]), steps[1..], chat)
  }

  /** What leaves a chat behind: an update that finds a newer row named, or a send that throws with a
      row newer than the one named. Both can be told before the step. */
  predicate LeavesBehind(s: State, step: Step, chat: ChatId)
    requires Enabled(s, step)
  {
    || !Guarded(s, step, chat)
    || (Abandons(s, step, chat) && chat in s.chats
        && !AtMost(s.sends[step.task].phase.message.id, s.chats[chat]))
  }

  ghost predicate NeverLeftBehind(s: State, steps: seq<Step>, chat: ChatId)
    requires ValidRun(s, steps)
    decreases |steps|
  {
    steps != [] ==>
      !LeavesBehind(s, steps[0], chat) && NeverLeftBehind(Apply(s, steps[0]), steps[1..], chat)
  }

  ghost predicate StoredAs(sends: Sends, t: TaskId, m: Message) {
    t in sends && sends[t].phase == Stored(m)
  }

  /** The send of the row has yet to update the chat. */
  ghost predicate Upcoming(sends: Sends, m: Message) {
    exists t :: StoredAs(sends, t, m)
  }

  /** No row of the chat is newer than its last sent message, but for rows whose update is to come. */
  ghost predicate CaughtUp(lastSent: Option<MessageId>, rows: seq<Message>, sends: Sends, chat: ChatId) {
    forall m :: m in rows && m.directChatId == chat ==> AtMost(m.id, lastSent) || Upcoming(sends, m)
  }

  lemma CaughtUpMoves(lastSent: Option<MessageId>, rows: seq<Message>, sends: Sends, chat: ChatId,
                      t: TaskId, k: SendTask)
    requires CaughtUp(lastSent, rows, sends, chat)
    requires t in sends && sends[t].phase.Stored? && sends[t].phase.message.directChatId == chat ==>
               AtMost(sends[t].phase.message.id, lastSent)
    ensures CaughtUp(lastSent, rows, sends[t := k], chat)
  {
    forall m | m in rows && m.directChatId == chat && !AtMost(m.id, lastSent)
      ensures Upcoming(sends[t := k], m)
    {
      var u :| StoredAs(sends, u, m);
      assert StoredAs(sends[t := k], u, m);
    }
  }

  lemma CaughtUpStores(lastSent: Option<MessageId>, rows: seq<Message>, sends: Sends, chat: ChatId,
                       t: TaskId, k: SendTask, m: Message)
    requires CaughtUp(lastSent, rows, sends, chat)
    requires k.phase == Stored(m) && (t in sends ==> !sends[t].phase.Stored?)
    ensures CaughtUp(lastSent, rows + [m], sends[t := k], chat)
  {
    CaughtUpMoves(lastSent, rows, sends, chat, t, k);
    assert StoredAs(sends[t := k], t, m);
  }

  lemma CaughtUpPoints(lastSent: Option<MessageId>, rows: seq<Message>, sends: Sends, chat: ChatId,
                       t: TaskId, k: SendTask, m: Message)
    requires CaughtUp(lastSent, rows, sends, chat)
    requires StoredAs(sends, t, m) && (lastSent.Some? ==> lastSent.value <= m.id)
    ensures CaughtUp(Some(m.id), rows, sends[t := k], chat)
  {
    forall n | n in rows && n.directChatId == chat && !AtMost(n.id, Some(m.id))
      ensures Upcoming(sends[t := k], n)
    {
      var u :| StoredAs(sends, u, n);
      assert StoredAs(sends[t := k], u, n);
    }
  }

  ghost predicate ChatCaughtUp(s: State, chat: ChatId) {
    chat in s.chats && CaughtUp(s.chats[chat], s.rows, s.sends, chat)
  }

  lemma CreateCaughtUp(s: State, t: TaskId, chat: ChatId)
    requires Enabled(s, CreateMessage(t)) && ChatCaughtUp(s, chat)
    ensures ChatCaughtUp(DoCreateMessage(s, t), chat)
  {
    var k' := DoCreateMessage(s, t).sends[t];
    if k'.phase.Stored? {
      CaughtUpStores(s.chats[chat], s.rows, s.sends, chat, t, k', k'.phase.message);
    } else {
      CaughtUpMoves(s.chats[chat], s.rows, s.sends, chat, t, k');
    }
  }

  /** What an update does: the unique key has room, so the chat names the row of the send. */
  lemma UpdateNames(s: State, t: TaskId)
    requires Invariant(s) && Enabled(s, AddLastSent(t))
    requires s.sends[t].phase.message.directChatId in s.chats
    ensures var m, s' := s.sends[t].phase.message, DoAddLastSent(s, t);
            && m in s.rows && s'.rows == s.rows && s'.sends == s.sends[t := s.sends[t].(phase := Pointed(m))]
            && s'.chats == s.chats[m.directChatId := Some(m.id)]
  {
    NeverTaken(s, t);
  }

  lemma AddLastSentCaughtUp(s: State, t: TaskId, chat: ChatId)
    requires Invariant(s) && Enabled(s, AddLastSent(t)) && ChatCaughtUp(s, chat)
    requires Guarded(s, AddLastSent(t), chat)
    ensures ChatCaughtUp(DoAddLastSent(s, t), chat)
  {
    var m, k' := s.sends[t].phase.message, DoAddLastSent(s, t).sends[t];
    if m.directChatId == chat {
      UpdateNames(s, t);
      CaughtUpPoints(s.chats[chat], s.rows, s.sends, chat, t, k', m);
    } else {
      CaughtUpMoves(s.chats[chat], s.rows, s.sends, chat, t, k');
    }
  }

  lemma OtherCaughtUp(s: State, step: Step, chat: ChatId)
    requires Enabled(s, step) && ChatCaughtUp(s, chat)
    requires !step.CreateMessage? && !step.AddLastSent? && !LeavesBehind(s, step, chat)
    ensures ChatCaughtUp(Apply(s, step), chat)
  {
    if IsSendStep(step) {
      SendStepFrame(s, step);
      CaughtUpMoves(s.chats[chat], s.rows, s.sends, chat, step.task, Apply(s, step).sends[step.task]);
    } else {
      OtherStepFrame(s, step);
    }
  }

  lemma StepCaughtUp(s: State, step: Step, chat: ChatId)
    requires Invariant(s) && Enabled(s, step) && ChatCaughtUp(s, chat) && !LeavesBehind(s, step, chat)
    ensures ChatCaughtUp(Apply(s, step), chat)
  {
    if step.CreateMessage? {
      CreateCaughtUp(s, step.task, chat);
    } else if step.AddLastSent? {
      AddLastSentCaughtUp(s, step.task, chat);
    } else {
      OtherCaughtUp(s, step, chat);
    }
  }

  // ----- such a step does leave the chat behind

  /** The row that the chat names has no update to come. */
  ghost predicate NamedDone(lastSent: Option<MessageId>, sends: Sends, chat: ChatId) {
    forall t, m :: StoredAs(sends, t, m) && m.directChatId == chat ==> lastSent != Some(m.id)
  }

  ghost predicate ChatNamedDone(s: State, chat: ChatId) {
    chat in s.chats && NamedDone(s.chats[chat], s.sends, chat)
  }

  lemma NamedDoneMoves(lastSent: Option<MessageId>, sends: Sends, chat: ChatId, t: TaskId, k: SendTask)
    requires NamedDone(lastSent, sends, chat)
    requires k.phase.Stored? ==> k.phase.message.directChatId != chat || lastSent != Some(k.phase.message.id)
    ensures NamedDone(lastSent, sends[t := k], chat)
  {
    var after := sends[t := k];
    forall u, m | StoredAs(after, u, m) && m.directChatId == chat ensures lastSent != Some(m.id) {
      if u != t { assert StoredAs(sends, u, m); }
    }
  }

  lemma CreateNamedDone(s: State, t: TaskId, chat: ChatId)
    requires Invariant(s) && Enabled(s, CreateMessage(t)) && ChatNamedDone(s, chat)
    ensures ChatNamedDone(DoCreateMessage(s, t), chat)
  {
    if s.chats[chat].Some? {
      var n :| n in s.rows && n.id == s.chats[chat].value && n.directChatId == chat;
      assert n.id < s.nextId;
    }
    NamedDoneMoves(s.chats[chat], s.sends, chat, t, DoCreateMessage(s, t).sends[t]);
  }

  lemma UpdateNamedDone(s: State, t: TaskId, chat: ChatId)
    requires Invariant(s) && Enabled(s, AddLastSent(t)) && ChatNamedDone(s, chat)
    ensures ChatNamedDone(DoAddLastSent(s, t), chat)
  {
    var m, s' := s.sends[t].phase.message, DoAddLastSent(s, t);
    if m.directChatId == chat {
      UpdateNames(s, t);
      StepInvariant(s, AddLastSent(t));
      DoneIsNamed(s', t, m, chat);
    } else {
      NamedDoneMoves(s.chats[chat], s.sends, chat, t, s'.sends[t]);
    }
  }

  lemma DoneIsNamed(s: State, t: TaskId, m: Message, chat: ChatId)
    requires Invariant(s) && t in s.sends && s.sends[t].phase == Pointed(m)
    ensures NamedDone(Some(m.id), s.sends, chat)
  {
    assert Holds(s.sends, t, m);
    HeldInRows(s);
    UpdateDone(s.sends, t, m);
    forall u, n | StoredAs(s.sends, u, n) && n.directChatId == chat ensures n.id != m.id {
      assert Holds(s.sends, u, n);
      if n.id == m.id { SameRow(s.rows, n, m); }
    }
  }

  lemma UpdateDone(sends: Sends, t: TaskId, n: Message)
    requires HeldApart(sends) && t in sends && Held(sends[t].phase) == Some(n) && !sends[t].phase.Stored?
    ensures !Upcoming(sends, n)
  {
    assert Holds(sends, t, n);
    forall u ensures !StoredAs(sends, u, n) {
      if StoredAs(sends, u, n) { assert Holds(sends, u, n); }
    }
  }

  lemma StepNamedDone(s: State, step: Step, chat: ChatId)
    requires Invariant(s) && Enabled(s, step) && ChatNamedDone(s, chat)
    ensures ChatNamedDone(Apply(s, step), chat)
  {
    if step.CreateMessage? {
      CreateNamedDone(s, step.task, chat);
    } else if step.AddLastSent? {
      UpdateNamedDone(s, step.task, chat);
    } else if IsSendStep(step) {
      SendStepFrame(s, step);
      NamedDoneMoves(s.chats[chat], s.sends, chat, step.task, Apply(s, step).sends[step.task]);
    } else {
      OtherStepFrame(s, step);
    }
  }

  lemma NotCaughtUp(s: State, chat: ChatId, n: Message)
    requires n in s.rows && n.directChatId == chat && !Upcoming(s.sends, n)
    requires chat in s.chats ==> !AtMost(n.id, s.chats[chat])
    ensures !ChatCaughtUp(s, chat)
  {
  }

  lemma MissedGuardBreaks(s: State, t: TaskId, chat: ChatId)
    requires Invariant(s) && Enabled(s, AddLastSent(t)) && ChatNamedDone(s, chat)
    requires !Guarded(s, AddLastSent(t), chat)
    ensures !ChatCaughtUp(DoAddLastSent(s, t), chat)
  {
    var s' := DoAddLastSent(s, t);
    UpdateNames(s, t);
    var n :| n in s.rows && n.id == s.chats[chat].value && n.directChatId == chat;
    forall u ensures !StoredAs(s'.sends, u, n) {
      if StoredAs(s'.sends, u, n) { assert StoredAs(s.sends, u, n); }
    }
    NotCaughtUp(s', chat, n);
  }

  lemma AbandonBreaks(s: State, t: TaskId, chat: ChatId)
    requires Invariant(s) && Enabled(s, SendFails(t)) && chat in s.chats
    requires Abandons(s, SendFails(t), chat) && !AtMost(s.sends[t].phase.message.id, s.chats[chat])
    ensures !ChatCaughtUp(DoSendFails(s, t), chat)
  {
    var m, s' := s.sends[t].phase.message, DoSendFails(s, t);
    assert Holds(s.sends, t, m);
    HeldInRows(s);
    StepInvariant(s, SendFails(t));
    UpdateDone(s'.sends, t, m);
    NotCaughtUp(s', chat, m);
  }

  lemma LeftBehind(s: State, step: Step, chat: ChatId)
    requires Invariant(s) && Enabled(s, step) && ChatNamedDone(s, chat) && LeavesBehind(s, step, chat)
    ensures !ChatCaughtUp(Apply(s, step), chat)
  {
    if step.SendFails? {
      AbandonBreaks(s, step.task, chat);
    } else {
      MissedGuardBreaks(s, step.task, chat);
    }
  }

  ghost predicate AlwaysCaughtUp(s: State, steps: seq<Step>, chat: ChatId)
    requires ValidRun(s, steps)
    decreases |steps|
  {
    ChatCaughtUp(s, chat) && (steps != [] ==> AlwaysCaughtUp(Apply(s, steps[0]), steps[1..], chat))
  }

  lemma {:induction false} RunCaughtUpExactly(s: State, steps: seq<Step>, chat: ChatId)
    requires Invariant(s) && ValidRun(s, steps) && ChatCaughtUp(s, chat) && ChatNamedDone(s, chat)
    ensures AlwaysCaughtUp(s, steps, chat) <==> NeverLeftBehind(s, steps, chat)
    decreases |steps|
  {
    if steps != [] {
      var s1 := Apply(s, steps[0]);
      StepInvariant(s, steps[0]);
      StepNamedDone(s, steps[0], chat);
      if LeavesBehind(s, steps[0], chat) {
        LeftBehind(s, steps[0], chat);
      } else {
        StepCaughtUp(s, steps[0], chat);
        RunCaughtUpExactly(s1, steps[1..], chat);
      }
    }
  }

  /** Over every run, overlapping sends and failures included: in every state of it no row of the chat
      is newer than its last sent message, but for rows whose update is to come, exactly when no
      update of the chat finds a newer row named and no send of it throws, before its update, with a
      row newer than the one named. */
  lemma LastSentNewestExactly(w: World, steps: seq<Step>, chat: ChatId)
    requires ValidRun(Initial(w), steps) && chat in w.chats
    ensures AlwaysCaughtUp(Initial(w), steps, chat) <==> NeverLeftBehind(Initial(w), steps, chat)
  {
    InitialInvariant(w);
    RunCaughtUpExactly(Initial(w), steps, chat);
  }

  lemma {:induction false} CaughtUpAtEnd(s: State, steps: seq<Step>, chat: ChatId)
    requires ValidRun(s, steps) && AlwaysCaughtUp(s, steps, chat)
    ensures ChatCaughtUp(Run(s, steps), chat)
    decreases |steps|
  {
    if steps != [] {
      CaughtUpAtEnd(Apply(s, steps[0]), steps[1..], chat);
    }
  }

  // ----- sends that do not overlap

  ghost predicate StoredIn(sends: Sends, t: TaskId, chat: ChatId) {
    t in sends && sends[t].phase.Stored? && sends[t].phase.message.directChatId == chat
  }

  /** A row of the chat is stored while another send of it has yet to update the chat. */
  ghost predicate Overlaps(s: State, step: Step, chat: ChatId)
    requires Enabled(s, step)
  {
    step.CreateMessage? && s.sends[step.task].payload.directChatId == chat
    && exists t :: StoredIn(s.sends, t, chat)
  }

  ghost predicate NeverOverlaps(s: State, steps: seq<Step>, chat: ChatId)
    requires ValidRun(s, steps)
    decreases |steps|
  {
    steps != [] ==> !Overlaps(s, steps[0], chat) && NeverOverlaps(Apply(s, steps[0]), steps[1..], chat)
  }

  /** The row of a send that has yet to update the chat is the newest of the chat. */
  ghost predicate StoredNewest(rows: seq<Message>, sends: Sends, chat: ChatId) {
    forall t, m :: StoredIn(sends, t, chat) && m in rows && m.directChatId == chat ==>
      m.id <= sends[t].phase.message.id
  }

  lemma StoredNewestMoves(rows: seq<Message>, sends: Sends, chat: ChatId, t: TaskId, k: SendTask)
    requires StoredNewest(rows, sends, chat) && !StoredIn(sends[t := k], t, chat)
    ensures StoredNewest(rows, sends[t := k], chat)
  {
    var after := sends[t := k];
    forall u, m | StoredIn(after, u, chat) && m in rows && m.directChatId == chat
      ensures m.id <= after[u].phase.message.id
    {
      assert StoredIn(sends, u, chat);
    }
  }

  lemma CreateStoredNewest(s: State, t: TaskId, chat: ChatId)
    requires Invariant(s) && Enabled(s, CreateMessage(t)) && StoredNewest(s.rows, s.sends, chat)
    requires !Overlaps(s, CreateMessage(t), chat)
    ensures StoredNewest(DoCreateMessage(s, t).rows, DoCreateMessage(s, t).sends, chat)
  {
    var s' := DoCreateMessage(s, t);
    forall u, m | StoredIn(s'.sends, u, chat) && m in s'.rows && m.directChatId == chat
      ensures m.id <= s'.sends[u].phase.message.id
    {
      if u != t { assert StoredIn(s.sends, u, chat); }
    }
  }

  lemma StepStoredNewest(s: State, step: Step, chat: ChatId)
    requires Invariant(s) && Enabled(s, step) && StoredNewest(s.rows, s.sends, chat)
    requires !Overlaps(s, step, chat)
    ensures StoredNewest(Apply(s, step).rows, Apply(s, step).sends, chat)
  {
    if step.CreateMessage? {
      CreateStoredNewest(s, step.task, chat);
    } else if IsSendStep(step) {
      SendStepFrame(s, step);
      StoredNewestMoves(s.rows, s.sends, chat, step.task, Apply(s, step).sends[step.task]);
    } else {
      OtherStepFrame(s, step);
    }
  }

  lemma StoredNewestGuarded(s: State, step: Step, chat: ChatId)
    requires Invariant(s) && Enabled(s, step) && StoredNewest(s.rows, s.sends, chat)
    ensures Guarded(s, step, chat)
  {
    if IsUpdate(s, step, chat) && chat in s.chats && s.chats[chat].Some? {
      assert StoredIn(s.sends, step.task, chat);
      var n :| n in s.rows && n.id == s.chats[chat].value && n.directChatId == chat;
      assert n.id <= s.sends[step.task].phase.message.id;
    }
  }

  lemma {:induction false} RunWithoutOverlap(s: State, steps: seq<Step>, chat: ChatId)
    requires Invariant(s) && ValidRun(s, steps) && StoredNewest(s.rows, s.sends, chat)
    requires NeverOverlaps(s, steps, chat)
    ensures AllGuarded(s, steps, chat)
    ensures NeverAbandons(s, steps, chat) ==> NeverLeftBehind(s, steps, chat)
    decreases |steps|
  {
    if steps != [] {
      StepInvariant(s, steps[0]);
      StoredNewestGuarded(s, steps[0], chat);
      StepStoredNewest(s, steps[0], chat);
      RunWithoutOverlap(Apply(s, steps[0]), steps[1..], chat);
    }
  }

  /** When the sends of a chat do not overlap between insert and update, every update of it meets the
      guard; and when none of them throws there, the last sent message is the chat's newest row in
      every state in which no update is to come. */
  lemma WithoutOverlapNewest(w: World, steps: seq<Step>, chat: ChatId)
    requires ValidRun(Initial(w), steps) && chat in w.chats
    requires NeverOverlaps(Initial(w), steps, chat)
    ensures AllGuarded(Initial(w), steps, chat)
    ensures var s := Run(Initial(w), steps);
            NeverAbandons(Initial(w), steps, chat) && (forall t :: !StoredIn(s.sends, t, chat)) ==>
              chat in s.chats && forall m :: m in s.rows && m.directChatId == chat ==> AtMost(m.id, s.chats[chat])
  {
    InitialInvariant(w);
    RunWithoutOverlap(Initial(w), steps, chat);
    if NeverAbandons(Initial(w), steps, chat) {
      LastSentNewestExactly(w, steps, chat);
      CaughtUpAtEnd(Initial(w), steps, chat);
      NewestWhenQuiet(Run(Initial(w), steps), chat);
    }
  }

  lemma NewestWhenQuiet(s: State, chat: ChatId)
    requires ChatCaughtUp(s, chat)
    ensures (forall t :: !StoredIn(s.sends, t, chat)) ==>
              forall m :: m in s.rows && m.directChatId == chat ==> AtMost(m.id, s.chats[chat])
  {
    forall m | m in s.rows && m.directChatId == chat && Upcoming(s.sends, m)
      ensures exists t :: StoredIn(s.sends, t, chat)
    {
      var t :| StoredAs(s.sends, t, m);
      assert StoredIn(s.sends, t, chat);
    }
  }

  // ----- the guard is exact

  /** The chat names an older row than before, or none. */
  predicate StepsBack(s: State, s': State, chat: ChatId) {
    chat in s.chats && s.chats[chat].Some?
    && !(chat in s'.chats && AtMost(s.chats[chat].value, s'.chats[chat]))
  }

  ghost predicate NeverStepsBack(s: State, steps: seq<Step>, chat: ChatId)
    requires ValidRun(s, steps)
    decreases |steps|
  {
    steps != [] ==>
      !StepsBack(s, Apply(s, steps[0]), chat) && NeverStepsBack(Apply(s, steps[0]), steps[1..], chat)
  }

  /** An update that misses the guard, and only such an update, leaves the chat behind a row of its
      own that it already named. */
  lemma MissedGuardStepsBack(s: State, t: TaskId)
    requires Invariant(s) && Enabled(s, AddLastSent(t))
    ensures var chat, s' := s.sends[t].phase.message.directChatId, DoAddLastSent(s, t);
            && (StepsBack(s, s', chat) <==> !Guarded(s, AddLastSent(t), chat))
            && (StepsBack(s, s', chat) ==>
                  chat in s'.chats
                  && (exists n :: n in s'.rows && n.directChatId == chat
                                  && s.chats[chat] == Some(n.id) && !AtMost(n.id, s'.chats[chat])))
  {
    var chat := s.sends[t].phase.message.directChatId;
    if chat in s.chats {
      UpdateNames(s, t);
      if s.chats[chat].Some? {
        var n :| n in s.rows && n.id == s.chats[chat].value && n.directChatId == chat;
        assert n in DoAddLastSent(s, t).rows;
      }
    }
  }

  lemma ChatKept(s: State, step: Step, chat: ChatId)
    requires Enabled(s, step) && !IsUpdate(s, step, chat)
    ensures var s' := Apply(s, step);
            && (chat in s'.chats <==> chat in s.chats)
            && (chat in s.chats ==> s'.chats[chat] == s.chats[chat])
  {
  }

  /** Over every run the chat never steps back exactly when each of its updates meets the guard. */
  lemma {:induction false} GuardExact(s: State, steps: seq<Step>, chat: ChatId)
    requires Invariant(s) && ValidRun(s, steps)
    ensures AllGuarded(s, steps, chat) <==> NeverStepsBack(s, steps, chat)
    decreases |steps|
  {
    if steps != [] {
      var step := steps[0];
      StepInvariant(s, step);
      if IsUpdate(s, step, chat) {
        MissedGuardStepsBack(s, step.task);
      } else {
        ChatKept(s, step, chat);
      }
      GuardExact(Apply(s, step), steps[1..], chat);
    }
  }

  // ----- a run that misses it

  lemma TwoSteps(s: State, a: Step, b: Step)
    requires Enabled(s, a) && Enabled(Apply(s, a), b)
    ensures ValidRun(s, [a, b]) && Run(s, [a, b]) == Apply(Apply(s, a), b)
  {
    assert [a, b][1..] == [b] && [b][1..] == [];
    var s1 := Apply(s, a);
    var s2 := Apply(s1, b);
    assert ValidRun(s2, []) && Run(s2, []) == s2;
    assert ValidRun(s1, [b]) && Run(s1, [b]) == s2;
  }

  lemma {:induction false} RunConcat(s: State, xs: seq<Step>, ys: seq<Step>)
    requires ValidRun(s, xs) && ValidRun(Run(s, xs), ys)
    ensures ValidRun(s, xs + ys) && Run(s, xs + ys) == Run(Run(s, xs), ys)
    decreases |xs|
  {
    if xs == [] {
      assert xs + ys == ys;
    } else {
      assert (xs + ys)[1..] == xs[1..] + ys;
      RunConcat(Apply(s, xs[0]), xs[1..], ys);
    }
  }

  /** Two texts of one user to another in one chat, with tokens and times of their own. */
  function First(b: UserId, chat: ChatId): Payload { Payload(TEXT, b, "first", chat, 0, "hello") }

  function Second(b: UserId, chat: ChatId): Payload { Payload(TEXT, b, "second", chat, 1, "again") }

  /** How far the two sends have come. */
  predicate Both(s: State, a: UserId, b: UserId, chat: ChatId, p: Phase, q: Phase) {
    && 0 in s.sends && s.sends[0].author == a && s.sends[0].payload == First(b, chat)
    && 1 in s.sends && s.sends[1].author == a && s.sends[1].payload == Second(b, chat)
    && s.sends[0].phase == p && s.sends[1].phase == q
  }

  predicate SameTables(s: State, s': State) {
    s'.requests == s.requests && s'.chats == s.chats && s'.rows == s.rows && s'.nextId == s.nextId
  }

  lemma AskFirst(w: World, a: UserId, b: UserId)
    requires a != b && a in w.users && b in w.users
    ensures var s, s' := Initial(w), Apply(Initial(w), FriendCall(Requests.SendCall(a, b)));
            && s' == s.(requests := s'.requests) && s'.requests.users == w.users
            && Requests.IsFriend(s'.requests.requests, a, b)
  {
    var r := Requests.Request(0, a, b, Requests.PENDING);
    assert Requests.Send(Requests.Empty(w.users), a, b) == Requests.Create(Requests.Empty(w.users), a, b);
    var requests := Requests.Step(Requests.Empty(w.users), Requests.SendCall(a, b)).requests;
    assert requests == [r];
    assert Requests.Connects(requests[0], a, b);
  }

  lemma BothArrive(s: State, a: UserId, b: UserId, chat: ChatId)
    requires s.sends == map[]
    ensures var x, y := SendArrives(0, 0, a, First(b, chat)), SendArrives(1, 0, a, Second(b, chat));
            && ValidRun(s, [x, y])
            && Both(Run(s, [x, y]), a, b, chat, Authenticated, Authenticated)
            && SameTables(s, Run(s, [x, y])) && Run(s, [x, y]).tokens == s.tokens
  {
    TwoSteps(s, SendArrives(0, 0, a, First(b, chat)), SendArrives(1, 0, a, Second(b, chat)));
  }

  lemma BothTakeTokens(s: State, a: UserId, b: UserId, chat: ChatId)
    requires Both(s, a, b, chat, Authenticated, Authenticated) && s.tokens.lists == map[]
    ensures var x, y := CheckUnique(0), CheckUnique(1);
            && ValidRun(s, [x, y])
            && Both(Run(s, [x, y]), a, b, chat, TokenTaken, TokenTaken) && SameTables(s, Run(s, [x, y]))
  {
    var s1 := DoCheckUnique(s, 0);
    assert Tokens.ListOf(s1.tokens.lists, a) == ["first"];
    assert s1.sends[1] == s.sends[1];
    TwoSteps(s, CheckUnique(0), CheckUnique(1));
  }

  lemma BothVetted(s: State, a: UserId, b: UserId, chat: ChatId)
    requires Both(s, a, b, chat, TokenTaken, TokenTaken)
    requires Requests.IsFriend(s.requests.requests, a, b)
    ensures var x, y := CheckFriendship(0), CheckFriendship(1);
            && ValidRun(s, [x, y])
            && Both(Run(s, [x, y]), a, b, chat, Vetted, Vetted) && SameTables(s, Run(s, [x, y]))
  {
    TwoSteps(s, CheckFriendship(0), CheckFriendship(1));
  }

  lemma BothStored(s: State, a: UserId, b: UserId, chat: ChatId)
    requires Both(s, a, b, chat, Vetted, Vetted)
    requires a in s.requests.users && b in s.requests.users && chat in s.chats && s.rows == []
    ensures var x, y := CreateMessage(0), CreateMessage(1);
            && ValidRun(s, [x, y]) && Run(s, [x, y]).chats == s.chats
            && Both(Run(s, [x, y]), a, b, chat, Stored(RowOf(s.nextId, a, First(b, chat))),
                    Stored(RowOf(s.nextId + 1, a, Second(b, chat))))
  {
    var m := RowOf(s.nextId, a, First(b, chat));
    var s1 := DoCreateMessage(s, 0);
    assert s1.rows == [m] && s1.sends[1] == s.sends[1];
    TwoSteps(s, CreateMessage(0), CreateMessage(1));
  }

  /** The rest of a run leaves the chat at its first row, with the second one stored and its update
      done. */
  ghost predicate EndsBehind(s: State, steps: seq<Step>, chat: ChatId, n: Message) {
    && ValidRun(s, steps)
    && var s' := Run(s, steps);
       n in s'.rows && n.directChatId == chat && n.id == 2
       && chat in s'.chats && s'.chats[chat] == Some(1) && !Upcoming(s'.sends, n)
  }

  lemma SecondUpdate(s: State, n: Message)
    requires Invariant(s) && 0 in s.sends && s.sends[0].phase.Stored?
    requires 1 in s.sends && s.sends[1].phase == Stored(n) && n.directChatId in s.chats
    ensures var s' := DoAddLastSent(s, 1);
            && s'.sends[0] == s.sends[0] && 1 in s'.sends
            && s'.sends[1].phase == Pointed(n) && n in s'.rows && s'.chats.Keys == s.chats.Keys
  {
    UpdateNames(s, 1);
  }

  lemma FirstUpdate(s: State, m: Message, n: Message)
    requires Invariant(s) && 0 in s.sends && s.sends[0].phase == Stored(m) && m.directChatId in s.chats
    requires 1 in s.sends && s.sends[1].phase == Pointed(n) && n in s.rows
    ensures var s' := DoAddLastSent(s, 0);
            && n in s'.rows && m.directChatId in s'.chats && s'.chats[m.directChatId] == Some(m.id)
            && !Upcoming(s'.sends, n)
  {
    UpdateNames(s, 0);
    StepInvariant(s, AddLastSent(0));
    UpdateDone(DoAddLastSent(s, 0).sends, 1, n);
  }

  lemma FromStored(s: State, m: Message, n: Message, chat: ChatId)
    requires Invariant(s) && 0 in s.sends && s.sends[0].phase == Stored(m)
    requires 1 in s.sends && s.sends[1].phase == Stored(n)
    requires m.directChatId == chat == n.directChatId && m.id == 1 && n.id == 2 && chat in s.chats
    ensures EndsBehind(s, Updates(), chat, n)
  {
    SecondUpdate(s, n);
    StepInvariant(s, AddLastSent(1));
    FirstUpdate(DoAddLastSent(s, 1), m, n);
    TwoSteps(s, AddLastSent(1), AddLastSent(0));
  }

  /** The second send updates the chat before the first. */
  function Updates(): seq<Step> { [AddLastSent(1), AddLastSent(0)] }

  function FromVettedOn(): seq<Step> { [CreateMessage(0), CreateMessage(1)] + Updates() }

  function FromTakenOn(): seq<Step> { [CheckFriendship(0), CheckFriendship(1)] + FromVettedOn() }

  function FromArrivedOn(): seq<Step> { [CheckUnique(0), CheckUnique(1)] + FromTakenOn() }

  /** One request, two sends side by side up to their rows, and the two updates. */
  function OverlapRun(a: UserId, b: UserId, chat: ChatId): seq<Step> {
    [FriendCall(Requests.SendCall(a, b))]
    + ([SendArrives(0, 0, a, First(b, chat)), SendArrives(1, 0, a, Second(b, chat))] + FromArrivedOn())
  }

  predicate Fresh(s: State, a: UserId, b: UserId, chat: ChatId) {
    && Requests.IsFriend(s.requests.requests, a, b)
    && a in s.requests.users && b in s.requests.users
    && chat in s.chats && s.rows == [] && s.nextId == 1
  }

  lemma FromVetted(s: State, a: UserId, b: UserId, chat: ChatId)
    requires Invariant(s) && Both(s, a, b, chat, Vetted, Vetted) && Fresh(s, a, b, chat)
    ensures EndsBehind(s, FromVettedOn(), chat, RowOf(2, a, Second(b, chat)))
  {
    var steps := [CreateMessage(0), CreateMessage(1)];
    BothStored(s, a, b, chat);
    RunInvariant(s, steps);
    FromStored(Run(s, steps), RowOf(1, a, First(b, chat)), RowOf(2, a, Second(b, chat)), chat);
    RunConcat(s, steps, Updates());
  }

  lemma FromTaken(s: State, a: UserId, b: UserId, chat: ChatId)
    requires Invariant(s) && Both(s, a, b, chat, TokenTaken, TokenTaken) && Fresh(s, a, b, chat)
    ensures EndsBehind(s, FromTakenOn(), chat, RowOf(2, a, Second(b, chat)))
  {
    var steps := [CheckFriendship(0), CheckFriendship(1)];
    BothVetted(s, a, b, chat);
    RunInvariant(s, steps);
    FromVetted(Run(s, steps), a, b, chat);
    RunConcat(s, steps, FromVettedOn());
  }

  lemma FromArrived(s: State, a: UserId, b: UserId, chat: ChatId)
    requires Invariant(s) && Both(s, a, b, chat, Authenticated, Authenticated) && Fresh(s, a, b, chat)
    requires s.tokens.lists == map[]
    ensures EndsBehind(s, FromArrivedOn(), chat, RowOf(2, a, Second(b, chat)))
  {
    var steps := [CheckUnique(0), CheckUnique(1)];
    BothTakeTokens(s, a, b, chat);
    RunInvariant(s, steps);
    FromTaken(Run(s, steps), a, b, chat);
    RunConcat(s, steps, FromTakenOn());
  }

  lemma FromAsked(s: State, a: UserId, b: UserId, chat: ChatId)
    requires Invariant(s) && Fresh(s, a, b, chat) && s.sends == map[] && s.tokens.lists == map[]
    ensures var steps := [SendArrives(0, 0, a, First(b, chat)), SendArrives(1, 0, a, Second(b, chat))];
            EndsBehind(s, steps + FromArrivedOn(), chat, RowOf(2, a, Second(b, chat)))
  {
    var steps := [SendArrives(0, 0, a, First(b, chat)), SendArrives(1, 0, a, Second(b, chat))];
    BothArrive(s, a, b, chat);
    RunInvariant(s, steps);
    FromArrived(Run(s, steps), a, b, chat);
    RunConcat(s, steps, FromArrivedOn());
  }

  lemma OneStep(s: State, step: Step)
    requires Enabled(s, step)
    ensures ValidRun(s, [step]) && Run(s, [step]) == Apply(s, step)
  {
    assert [step][1..] == [];
    assert ValidRun(Apply(s, step), []) && Run(Apply(s, step), []) == Apply(s, step);
  }

  lemma OverlapEnds(w: World, a: UserId, b: UserId, chat: ChatId)
    requires a != b && a in w.users && b in w.users && chat in w.chats
    ensures EndsBehind(Initial(w), OverlapRun(a, b, chat), chat, RowOf(2, a, Second(b, chat)))
  {
    var s, ask := Initial(w), FriendCall(Requests.SendCall(a, b));
    InitialInvariant(w);
    AskFirst(w, a, b);
    StepInvariant(s, ask);
    FromAsked(Apply(s, ask), a, b, chat);
    OneStep(s, ask);
    RunConcat(s, [ask], [SendArrives(0, 0, a, First(b, chat)), SendArrives(1, 0, a, Second(b, chat))]
                        + FromArrivedOn());
  }

  lemma {:induction false} NoFailureNoAbandon(s: State, steps: seq<Step>, chat: ChatId)
    requires ValidRun(s, steps) && forall i :: 0 <= i < |steps| ==> !steps[i].SendFails?
    ensures NeverAbandons(s, steps, chat)
    ensures AllGuarded(s, steps, chat) ==> NeverLeftBehind(s, steps, chat)
    decreases |steps|
  {
    if steps != [] {
      NoFailureNoAbandon(Apply(s, steps[0]), steps[1..], chat);
    }
  }

  /** A fresh gateway reaches it in eleven steps: one friend request, two sends up to their rows, and
      the two updates. Nobody fails, one update misses the guard, and the chat stays behind a stored
      row whose update is done. */
  lemma OverlapMovesBack(w: World, a: UserId, b: UserId, chat: ChatId)
    requires a != b && a in w.users && b in w.users && chat in w.chats
    ensures var steps := OverlapRun(a, b, chat);
            && |steps| == 11 && ValidRun(Initial(w), steps)
            && NeverAbandons(Initial(w), steps, chat) && !AllGuarded(Initial(w), steps, chat)
            && var s := Run(Initial(w), steps);
               chat in s.chats
               && exists n :: n in s.rows && n.directChatId == chat
                              && !AtMost(n.id, s.chats[chat]) && !Upcoming(s.sends, n)
  {
    OverlapEnds(w, a, b, chat);
    NoFailureNoAbandon(Initial(w), OverlapRun(a, b, chat), chat);
    if AllGuarded(Initial(w), OverlapRun(a, b, chat), chat) {
      LastSentNewestExactly(w, OverlapRun(a, b, chat), chat);
      CaughtUpAtEnd(Initial(w), OverlapRun(a, b, chat), chat);
    }
  }
}
