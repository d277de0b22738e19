/** One cancellable five-second timer per sender: it tells the recipient's socket that the sender is
    no longer typing. A timer that has fired leaves its flag behind; clearing it then does nothing. */
module Typing {
  import opened Domain
  import opened Wrappers

  const TYPING_TIME_OUT: int := 5000

  datatype Pending = Pending(sender: UserId, socket: SocketId, due: Time)

  datatype Entry =
    | Started(sender: UserId, socket: SocketId, at: Time)
    | Stopped(sender: UserId, at: Time)
    | NotTyping(sender: UserId, socket: SocketId, due: Time, at: Time)

  datatype State = State(now: Time, flags: map<UserId, TimerId>, timers: map<TimerId, Pending>,
                         nextId: TimerId, log: seq<Entry>)

  datatype Event =
    | Init(sender: UserId, socket: SocketId)
    | Remove(sender: UserId)
    | Fire(timer: TimerId)
    | Tick(elapsed: nat)

  /** `clearTimeout` of the sender's timer, if it is pending, and removal of the flag. */
  function Clear(s: State, sender: UserId): State {
    if sender in s.flags then
      s.(timers := s.timers - {s.flags[sender]}, flags := s.flags - {sender})
    else s
  }

  function Apply(s: State, e: Event): State {
    match e
    case Init(sender, socket) =>
      var c := Clear(s, sender);
      c.(flags := c.flags[sender := c.nextId],
         timers := c.timers[c.nextId := Pending(sender, socket, c.now + TYPING_TIME_OUT)],
         nextId := c.nextId + 1,
         log := c.log + [Started(sender, socket, c.now)])
    case Remove(sender) =>
      var c := Clear(s, sender);
      c.(log := c.log + [Stopped(sender, c.now)])
    case Fire(id) =>
      if id !in s.timers then s
      else
        var t := s.timers[id];
        s.(timers := s.timers - {id}, log := s.log + [NotTyping(t.sender, t.socket, t.due, s.now)])
    case Tick(elapsed) => s.(now := s.now + elapsed)
  }

  predicate Enabled(s: State, e: Event) {
    e.Fire? ==> e.timer in s.timers && s.timers[e.timer].due <= s.now
  }

  function Begin(now: Time): State { State(now, map[], map[], 0, []) }

  ghost predicate ValidRun(s: State, events: seq<Event>)
    decreases |events|
  {
    events != [] ==> Enabled(s, events[0]) && ValidRun(Apply(s, events[0]), events[1..])
  }

  function Run(s: State, events: seq<Event>): State
    decreases |events|
  {
    if events == [] then s else Run(Apply(s, events[0]), events[1..])
  }

  /** The sender's last call or emission in the log. */
  function LastOf(log: seq<Entry>, sender: UserId): Option<Entry> {
    if log == [] then None
    else if log[|log| - 1].sender == sender then Some(log[|log| - 1])
    else LastOf(log[..|log| - 1], sender)
  }

  /** A timer handle is given to one sender only. */
  ghost predicate FlagsDistinct(s: State) {
    && (forall sender :: sender in s.flags ==> s.flags[sender] < s.nextId)
    && (forall a, b :: a in s.flags && b in s.flags && s.flags[a] == s.flags[b] ==> a == b)
  }

  /** Every pending timer is the one in its sender's flag and belongs to the sender's last call. */
  ghost predicate TimersCurrent(s: State) {
    forall id :: id in s.timers ==>
      var t := s.timers[id];
      && id < s.nextId
      && t.sender in s.flags && s.flags[t.sender] == id
      && LastOf(s.log, t.sender) == Some(Started(t.sender, t.socket, t.due - TYPING_TIME_OUT))
  }

  /** While a sender's last act is to start typing, the timer that will end it is pending. */
  ghost predicate StartsPending(s: State) {
    forall sender, socket, at :: LastOf(s.log, sender) == Some(Started(sender, socket, at)) ==>
      sender in s.flags && s.flags[sender] in s.timers
      && s.timers[s.flags[sender]] == Pending(sender, socket, at + TYPING_TIME_OUT)
  }

  /** An automatic "not typing" comes from the sender's last call, five seconds earlier, and not
      twice from the same one. */
  ghost predicate EmissionsEarned(log: seq<Entry>) {
    forall j :: 0 <= j < |log| && log[j].NotTyping? ==>
      var e := log[j];
      && e.due <= e.at
      && LastOf(log[..j], e.sender) == Some(Started(e.sender, e.socket, e.due - TYPING_TIME_OUT))
  }

  ghost predicate Invariant(s: State) {
    FlagsDistinct(s) && TimersCurrent(s) && StartsPending(s) && EmissionsEarned(s.log)
  }

  lemma LastOfAppend(log: seq<Entry>, e: Entry)
    ensures forall sender :: LastOf(log + [e], sender)
                             == if e.sender == sender then Some(e) else LastOf(log, sender)
  {
    assert (log + [e])[..|log|] == log;
  }

  lemma StepFlagsDistinct(s: State, e: Event)
    requires FlagsDistinct(s)
    ensures FlagsDistinct(Apply(s, e))
  {
  }

  lemma StepTimersCurrent(s: State, e: Event)
    requires TimersCurrent(s)
    ensures TimersCurrent(Apply(s, e))
  {
    var s' := Apply(s, e);
    if s'.log != s.log {
      assert s'.log == s.log + [s'.log[|s.log|]];
      LastOfAppend(s.log, s'.log[|s.log|]);
    }
  }

  lemma StepStartsPending(s: State, e: Event)
    requires FlagsDistinct(s) && TimersCurrent(s) && StartsPending(s)
    ensures StartsPending(Apply(s, e))
  {
    var s' := Apply(s, e);
    if s'.log != s.log {
      assert s'.log == s.log + [s'.log[|s.log|]];
      LastOfAppend(s.log, s'.log[|s.log|]);
    }
  }

  lemma StepEmissionsEarned(s: State, e: Event)
    requires TimersCurrent(s) && EmissionsEarned(s.log) && Enabled(s, e)
    ensures EmissionsEarned(Apply(s, e).log)
  {
    var s' := Apply(s, e);
    forall j | 0 <= j < |s'.log| && s'.log[j].NotTyping?
      ensures s'.log[j].due <= s'.log[j].at
      ensures LastOf(s'.log[..j], s'.log[j].sender)
              == Some(Started(s'.log[j].sender, s'.log[j].socket, s'.log[j].due - TYPING_TIME_OUT))
    {
      if j < |s.log| {
        assert s'.log[j] == s.log[j] && s'.log[..j] == s.log[..j];
      } else {
        assert s'.log[..j] == s.log;
      }
    }
  }

  lemma StepInvariant(s: State, e: Event)
    requires Invariant(s) && Enabled(s, e)
    ensures Invariant(Apply(s, e))
  {
    StepFlagsDistinct(s, e);
    StepTimersCurrent(s, e);
    StepStartsPending(s, e);
    StepEmissionsEarned(s, e);
  }

  lemma {:induction false} RunInvariant(s: State, events: seq<Event>)
    requires Invariant(s) && ValidRun(s, events)
    ensures Invariant(Run(s, events))
    decreases |events|
  {
    if events != [] {
      StepInvariant(s, events[0]);
      RunInvariant(Apply(s, events[0]), events[1..]);
    }
  }

  /** Over every run: at most one timer per sender is pending, and one is exactly when the sender's
      last act was to start typing. */
  lemma OneTimerPerSender(now: Time, events: seq<Event>, sender: UserId)
    requires ValidRun(Begin(now), events)
    ensures var s := Run(Begin(now), events);
            && (forall i, j ::
                  i in s.timers && j in s.timers
                  && s.timers[i].sender == sender == s.timers[j].sender
                  ==> i == j)
            && ((exists i :: i in s.timers && s.timers[i].sender == sender) <==>
                LastOf(s.log, sender).Some? && LastOf(s.log, sender).value.Started?)
  {
    RunInvariant(Begin(now), events);
    var s := Run(Begin(now), events);
    if LastOf(s.log, sender).Some? && LastOf(s.log, sender).value.Started? {
      LastOfSender(s.log, sender);
      var e := LastOf(s.log, sender).value;
      assert e == Started(sender, e.socket, e.at);
    }
  }

  lemma {:induction false} LastOfSender(log: seq<Entry>, sender: UserId)
    ensures LastOf(log, sender).Some? ==> LastOf(log, sender).value.sender == sender
  {
    if log != [] {
      LastOfSender(log[..|log| - 1], sender);
    }
  }

  /** Over every run: an automatic "not typing" at time `at` to a socket happens only when the
      sender's last call was to start typing at that socket, five seconds before the timer was due
      and so at least five before `at`. A refreshed, removed or fired timer never emits again. */
  lemma EmissionTrace(now: Time, events: seq<Event>, j: nat)
    requires ValidRun(Begin(now), events)
    requires j < |Run(Begin(now), events).log| && Run(Begin(now), events).log[j].NotTyping?
    ensures var log := Run(Begin(now), events).log;
            var e := log[j];
            && e.due <= e.at
            && LastOf(log[..j], e.sender) == Some(Started(e.sender, e.socket, e.due - 5 * 1000))
  {
    RunInvariant(Begin(now), events);
  }

  // ----- told by the events alone

  lemma {:induction false} RunSnoc(s: State, events: seq<Event>, last: Event)
    ensures Run(s, events + [last]) == Apply(Run(s, events), last)
    ensures ValidRun(s, events + [last]) <==> ValidRun(s, events) && Enabled(Run(s, events), last)
    decreases |events|
  {
    if events == [] {
      assert events + [last] == [last] && [last][1..] == [];
      assert Run(Apply(s, last), []) == Apply(s, last) && ValidRun(Apply(s, last), []);
    } else {
      assert (events + [last])[1..] == events[1..] + [last];
      RunSnoc(Apply(s, events[0]), events[1..], last);
    }
  }

  /** The time after some events. */
  function Clock(start: Time, events: seq<Event>): Time {
    if events == [] then start
    else
      var last, before := events[|events| - 1], Clock(start, events[..|events| - 1]);
      if last.Tick? then before + last.elapsed else before
  }

  /** How many starts there were; timers are numbered by them. */
  function Starts(events: seq<Event>): nat {
    if events == [] then 0
    else Starts(events[..|events| - 1]) + if events[|events| - 1].Init? then 1 else 0
  }

  /** The timer of start number `id`, if it waits: due five seconds after that start, at whose socket,
      as long as the sender has neither started again nor stopped, and it has not fired. */
  function WaitingBy(start: Time, events: seq<Event>, id: TimerId): Option<Pending> {
    if events == [] then None
    else
      var last, front := events[|events| - 1], events[..|events| - 1];
      if last.Init? && id == Starts(front) then
        Some(Pending(last.sender, last.socket, Clock(start, front) + 5 * 1000))
      else
        var before := WaitingBy(start, front, id);
        if last == Fire(id)
           || (before.Some? && (last.Init? || last.Remove?) && before.value.sender == last.sender) then None
        else before
  }

  lemma ToldSnoc(start: Time, events: seq<Event>, last: Event, id: TimerId)
    ensures Clock(start, events + [last]) == Clock(start, events) + if last.Tick? then last.elapsed else 0
    ensures Starts(events + [last]) == Starts(events) + if last.Init? then 1 else 0
    ensures WaitingBy(start, events + [last], id)
            == if last.Init? && id == Starts(events) then
                 Some(Pending(last.sender, last.socket, Clock(start, events) + 5 * 1000))
               else
                 var before := WaitingBy(start, events, id);
                 if last == Fire(id)
                    || (before.Some? && (last.Init? || last.Remove?) && before.value.sender == last.sender)
                 then None else before
  {
    assert (events + [last])[..|events|] == events;
  }

  /** Over every run exactly these timers wait. */
  lemma {:induction false} TimersTold(now: Time, events: seq<Event>, id: TimerId)
    requires ValidRun(Begin(now), events)
    ensures var s := Run(Begin(now), events);
            && s.now == Clock(now, events) && s.nextId == Starts(events)
            && WaitingBy(now, events, id) == if id in s.timers then Some(s.timers[id]) else None
    decreases |events|
  {
    if events != [] {
      var front, last := events[..|events| - 1], events[|events| - 1];
      assert events == front + [last];
      RunSnoc(Begin(now), front, last);
      TimersTold(now, front, id);
      RunInvariant(Begin(now), front);
      TimerTold(now, front, last, id);
    }
  }

  lemma TimerTold(now: Time, events: seq<Event>, last: Event, id: TimerId)
    requires var s := Run(Begin(now), events);
             && Invariant(s) && Enabled(s, last)
             && s.now == Clock(now, events) && s.nextId == Starts(events)
             && WaitingBy(now, events, id) == if id in s.timers then Some(s.timers[id]) else None
    ensures var s' := Apply(Run(Begin(now), events), last);
            && s'.now == Clock(now, events + [last]) && s'.nextId == Starts(events + [last])
            && WaitingBy(now, events + [last], id) == if id in s'.timers then Some(s'.timers[id]) else None
  {
    ToldSnoc(now, events, last, id);
    OneTimerMoves(Run(Begin(now), events), last, id);
  }

  lemma OneTimerMoves(s: State, e: Event, id: TimerId)
    requires Invariant(s) && Enabled(s, e)
    ensures var s' := Apply(s, e);
            if e.Init? && id == s.nextId then
              id in s'.timers && s'.timers[id] == Pending(e.sender, e.socket, s.now + TYPING_TIME_OUT)
            else if e == Fire(id)
                    || (id in s.timers && (e.Init? || e.Remove?) && s.timers[id].sender == e.sender) then
              id !in s'.timers
            else (id in s'.timers <==> id in s.timers) && (id in s.timers ==> s'.timers[id] == s.timers[id])
    ensures Apply(s, e).now == s.now + if e.Tick? then e.elapsed else 0
    ensures Apply(s, e).nextId == s.nextId + if e.Init? then 1 else 0
  {
  }

  /** What the log should hold. */
  function LogBy(start: Time, events: seq<Event>): seq<Entry> {
    if events == [] then []
    else
      var last, front := events[|events| - 1], events[..|events| - 1];
      var at := Clock(start, front);
      match last
      case Init(sender, socket) => LogBy(start, front) + [Started(sender, socket, at)]
      case Remove(sender) => LogBy(start, front) + [Stopped(sender, at)]
      case Fire(id) =>
        (match WaitingBy(start, front, id)
         case None => LogBy(start, front)
         case Some(t) => LogBy(start, front) + [NotTyping(t.sender, t.socket, t.due, at)])
      case Tick(_) => LogBy(start, front)
  }

  /** Over every run the log, of which the other statements speak, tells the events. */
  lemma {:induction false} LogTold(now: Time, events: seq<Event>)
    requires ValidRun(Begin(now), events)
    ensures Run(Begin(now), events).log == LogBy(now, events)
    decreases |events|
  {
    if events != [] {
      var front, last := events[..|events| - 1], events[|events| - 1];
      assert events == front + [last];
      RunSnoc(Begin(now), front, last);
      LogTold(now, front);
      TimersTold(now, front, if last.Fire? then last.timer else 0);
    }
  }

  /** The manager over its flags, with the event loop's clock and pending timers. */
  class ConversationTypingManager {
    var now: Time
    var flags: map<UserId, TimerId>
    var timers: map<TimerId, Pending>
    var nextId: TimerId
    ghost var log: seq<Entry>

    ghost function View(): State
      reads this
    {
      State(now, flags, timers, nextId, log)
    }

    constructor (now: Time)
      ensures View() == Begin(now)
    {
      this.now, flags, timers, nextId, log := now, map[], map[], 0, [];
    }

    method InitTyping(senderId: UserId, recipientSocket: SocketId)
      modifies this
      ensures View() == Apply(old(View()), Init(senderId, recipientSocket))
    {
      ghost var before := log;
      if senderId in flags {
        RemoveTyping(senderId);
      }
      flags := flags[senderId := nextId];
      timers := timers[nextId := Pending(senderId, recipientSocket, now + TYPING_TIME_OUT)];
      nextId := nextId + 1;
      log := before + [Started(senderId, recipientSocket, now)];
    }

    method RemoveTyping(senderId: UserId)
      modifies this
      ensures View() == Apply(old(View()), Remove(senderId))
    {
      if senderId in flags {
        timers := timers - {flags[senderId]};
      }
      flags := flags - {senderId};
      log := log + [Stopped(senderId, now)];
    }

    /** The event loop runs the callback of a timer whose time has come; the result is the socket
        that is told "not typing". */
    method TimerFires(id: TimerId) returns (told: SocketId)
      requires Enabled(View(), Fire(id))
      modifies this
      ensures View() == Apply(old(View()), Fire(id))
      ensures told == old(timers)[id].socket
    {
      var t := timers[id];
      timers := timers - {id};
      log := log + [NotTyping(t.sender, t.socket, t.due, now)];
      told := t.socket;
    }

    method TimePasses(elapsed: nat)
      modifies this`now
      ensures View() == Apply(old(View()), Tick(elapsed))
    {
      now := now + elapsed;
    }
  }
}
