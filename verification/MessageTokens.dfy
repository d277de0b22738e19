/** Per-user lists of message tokens: a token is accepted once, and a timer started at its
    acceptance removes it an hour later. Removing all of a user's tokens leaves the timers running.
    The event loop's clock and its pending timers are part of the state; a timer fires once its time
    has come, possibly late. The log records what was done, for the statements about runs. */
module MessageTokens {
  import opened Domain

  const CLEAN_MSG_TOKEN_TIMEOUT: int := 3_600_000

  datatype Timer = Timer(user: UserId, token: Token, due: Time)

  datatype Entry =
    | Accepted(user: UserId, token: Token, at: Time)
    | Cleared(user: UserId, at: Time)
    | Fired(user: UserId, token: Token, at: Time)

  datatype Tokens = Tokens(now: Time, lists: map<UserId, seq<Token>>, timers: multiset<Timer>,
                           log: seq<Entry>)

  datatype Event =
    | Check(user: UserId, token: Token)
    | RemoveAll(user: UserId)
    | Fire(timer: Timer)
    | Tick(elapsed: nat)

  function ListOf(lists: map<UserId, seq<Token>>, user: UserId): seq<Token> {
    if user in lists then lists[user] else []
  }

  ghost predicate Distinct(tokens: seq<Token>) {
    forall i, j :: 0 <= i < j < |tokens| ==> tokens[i] != tokens[j]
  }

  /** `filter((tk) => tk !== token)` */
  function Without(tokens: seq<Token>, token: Token): (rest: seq<Token>)
    ensures forall x :: x in rest <==> x in tokens && x != token
  {
    if tokens == [] then []
    else
      var last := |tokens| - 1;
      var rest := Without(tokens[..last], token);
      assert tokens == tokens[..last] + [tokens[last]];
      if tokens[last] == token then rest else rest + [tokens[last]]
  }

  lemma WithoutSnoc(tokens: seq<Token>, last: Token, token: Token)
    ensures Without(tokens + [last], token) == Without(tokens, token) + if last == token then [] else [last]
  {
    assert (tokens + [last])[..|tokens|] == tokens;
  }

  lemma {:induction false} WithoutCounts(tokens: seq<Token>, token: Token)
    ensures multiset(Without(tokens, token)) == multiset(tokens)[token := 0]
  {
    if tokens != [] {
      var front, last := tokens[..|tokens| - 1], tokens[|tokens| - 1];
      assert tokens == front + [last];
      WithoutCounts(front, token);
      WithoutSnoc(front, last, token);
    }
  }

  /** The filter takes out every occurrence of the token, keeps all others as often as they were, and
      works piece by piece, so it keeps their order. */
  lemma {:induction false} WithoutFilters(a: seq<Token>, b: seq<Token>, token: Token)
    ensures Without(a + b, token) == Without(a, token) + Without(b, token)
    ensures multiset(Without(b, token)) == multiset(b)[token := 0]
    decreases |b|
  {
    WithoutCounts(b, token);
    if b == [] {
      assert a + b == a;
    } else {
      var front, last := b[..|b| - 1], b[|b| - 1];
      assert b == front + [last] && a + b == (a + front) + [last];
      WithoutFilters(a, front, token);
      WithoutSnoc(front, last, token);
      WithoutSnoc(a + front, last, token);
    }
  }

  lemma {:induction false} WithoutDistinct(tokens: seq<Token>, token: Token)
    requires Distinct(tokens)
    ensures Distinct(Without(tokens, token))
  {
    if tokens != [] {
      var last := |tokens| - 1;
      WithoutDistinct(tokens[..last], token);
      assert tokens[last] !in tokens[..last];
    }
  }

  function Apply(s: Tokens, e: Event): Tokens {
    match e
    case Check(user, token) =>
      if token in ListOf(s.lists, user) then s
      else s.(lists := s.lists[user := ListOf(s.lists, user) + [token]],
              timers := s.timers + multiset{Timer(user, token, s.now + CLEAN_MSG_TOKEN_TIMEOUT)},
              log := s.log + [Accepted(user, token, s.now)])
    case RemoveAll(user) =>
      s.(lists := s.lists - {user}, log := s.log + [Cleared(user, s.now)])
    case Fire(timer) =>
      var list := ListOf(s.lists, timer.user);
      s.(lists := if list == [] then s.lists
                  else s.lists[timer.user := Without(list, timer.token)],
         timers := s.timers - multiset{timer},
         log := s.log + [Fired(timer.user, timer.token, s.now)])
    case Tick(elapsed) => s.(now := s.now + elapsed)
  }

  predicate Enabled(s: Tokens, e: Event) {
    e.Fire? ==> e.timer in s.timers && e.timer.due <= s.now
  }

  function Start(now: Time): Tokens { Tokens(now, map[], multiset{}, []) }

  ghost predicate ValidRun(s: Tokens, events: seq<Event>)
    decreases |events|
  {
    events != [] ==> Enabled(s, events[0]) && ValidRun(Apply(s, events[0]), events[1..])
  }

  function Run(s: Tokens, events: seq<Event>): Tokens
    decreases |events|
  {
    if events == [] then s else Run(Apply(s, events[0]), events[1..])
  }

  // ----- reading the log

  ghost predicate AcceptedAt(log: seq<Entry>, i: int, user: UserId, token: Token) {
    0 <= i < |log| && log[i].Accepted? && log[i].user == user && log[i].token == token
  }

  /** The entries that take a token out of a user's list. */
  predicate Ends(e: Entry, user: UserId, token: Token) {
    (e.Cleared? && e.user == user) || (e.Fired? && e.user == user && e.token == token)
  }

  ghost predicate EndedBetween(log: seq<Entry>, i: int, j: int, user: UserId, token: Token) {
    exists m :: i < m < j && 0 <= m < |log| && Ends(log[m], user, token)
  }

  /** An acceptance that nothing has ended yet. */
  ghost predicate OpenAt(log: seq<Entry>, i: int, user: UserId, token: Token) {
    AcceptedAt(log, i, user, token) && !EndedBetween(log, i, |log|, user, token)
  }

  ghost predicate NeverCleared(log: seq<Entry>, user: UserId) {
    forall m :: 0 <= m < |log| ==> !(log[m].Cleared? && log[m].user == user)
  }

  /** The user's tokens were not removed all at once before entry j. */
  ghost predicate UnclearedBefore(log: seq<Entry>, j: int, user: UserId) {
    forall m :: 0 <= m < j && m < |log| ==> !(log[m].Cleared? && log[m].user == user)
  }

  lemma LogGrows(log: seq<Entry>, e: Entry)
    ensures forall i, user, token :: AcceptedAt(log + [e], i, user, token) <==>
              AcceptedAt(log, i, user, token) || (i == |log| && e == Accepted(user, token, e.at))
    ensures forall i, user, token :: OpenAt(log + [e], i, user, token) <==>
              (OpenAt(log, i, user, token) && !Ends(e, user, token))
              || (i == |log| && e == Accepted(user, token, e.at))
    ensures forall i, j, user, token :: j <= |log| ==>
              (EndedBetween(log + [e], i, j, user, token) <==> EndedBetween(log, i, j, user, token))
  {
    forall i, j, user, token | j <= |log|
      ensures EndedBetween(log + [e], i, j, user, token) <==> EndedBetween(log, i, j, user, token)
    {
      if EndedBetween(log, i, j, user, token) {
        var m :| i < m < j && 0 <= m < |log| && Ends(log[m], user, token);
        assert Ends((log + [e])[m], user, token);
      }
    }
    forall i, user, token
      ensures OpenAt(log + [e], i, user, token) <==>
              (OpenAt(log, i, user, token) && !Ends(e, user, token))
              || (i == |log| && e == Accepted(user, token, e.at))
    {
      if OpenAt(log, i, user, token) && !Ends(e, user, token) {
        forall m | i < m < |log| + 1 ensures !Ends((log + [e])[m], user, token) {
          if m < |log| { assert !Ends(log[m], user, token); }
        }
      }
      if OpenAt(log + [e], i, user, token) && i < |log| {
        assert !Ends((log + [e])[|log|], user, token);
        forall m | i < m < |log| ensures !Ends(log[m], user, token) {
          assert !Ends((log + [e])[m], user, token);
        }
      }
    }
  }

  // ----- what holds in every reachable state

  ghost predicate NoTokenTwice(s: Tokens) {
    forall user :: user in s.lists ==> Distinct(s.lists[user])
  }

  /** A token is in a user's list exactly when some acceptance of it is open. */
  ghost predicate LiveExactly(s: Tokens) {
    forall user, token :: token in ListOf(s.lists, user) <==> exists i :: OpenAt(s.log, i, user, token)
  }

  /** The removal timer of an open acceptance is pending, due an hour after it. */
  ghost predicate TimersPending(s: Tokens) {
    forall i, user, token :: OpenAt(s.log, i, user, token) ==>
      Timer(user, token, s.log[i].at + CLEAN_MSG_TOKEN_TIMEOUT) in s.timers
  }

  /** Between two acceptances of one token by one user something ended the first. */
  ghost predicate AcceptancesApart(log: seq<Entry>) {
    forall i, j, user, token ::
      i < j && AcceptedAt(log, i, user, token) && AcceptedAt(log, j, user, token) ==>
        EndedBetween(log, i, j, user, token)
  }

  ghost predicate LogInOrder(s: Tokens) {
    && (forall i :: 0 <= i < |s.log| ==> s.log[i].at <= s.now)
    && (forall i, j :: 0 <= i < j < |s.log| ==> s.log[i].at <= s.log[j].at)
  }

  /** What holds of one user whose tokens were never removed all at once: each live token has one
      timer, due an hour or more after all its acceptances, and once it is gone an hour has
      passed since all of them. */
  ghost predicate TimersExact(s: Tokens, user: UserId, token: Token) {
    && (forall t :: t in s.timers && t.user == user && t.token == token ==>
          && token in ListOf(s.lists, user)
          && s.timers[t] == 1
          && (forall u :: u in s.timers && u.user == user && u.token == token ==> u == t)
          && (forall i :: AcceptedAt(s.log, i, user, token) ==>
                s.log[i].at + CLEAN_MSG_TOKEN_TIMEOUT <= t.due))
    && (token !in ListOf(s.lists, user) ==>
          forall i :: AcceptedAt(s.log, i, user, token) ==>
            s.log[i].at + CLEAN_MSG_TOKEN_TIMEOUT <= s.now)
  }

  ghost predicate HourApart(log: seq<Entry>, user: UserId, token: Token) {
    forall i, j ::
      i < j && AcceptedAt(log, i, user, token) && AcceptedAt(log, j, user, token) ==>
        log[j].at - log[i].at >= CLEAN_MSG_TOKEN_TIMEOUT
  }

  /** What a later removal of all tokens does not undo. */
  ghost predicate HourBeforeClear(log: seq<Entry>) {
    forall i, j, user, token ::
      i < j && AcceptedAt(log, i, user, token) && AcceptedAt(log, j, user, token)
      && UnclearedBefore(log, j, user) ==>
        log[j].at - log[i].at >= CLEAN_MSG_TOKEN_TIMEOUT
  }

  ghost predicate Spaced(s: Tokens, user: UserId, token: Token) {
    NeverCleared(s.log, user) ==> TimersExact(s, user, token) && HourApart(s.log, user, token)
  }

  ghost predicate Invariant(s: Tokens) {
    && NoTokenTwice(s) && LiveExactly(s) && TimersPending(s)
    && AcceptancesApart(s.log) && LogInOrder(s) && HourBeforeClear(s.log)
    && forall user, token :: Spaced(s, user, token)
  }

  // ----- every step keeps it

  lemma ListsAfter(s: Tokens, e: Event, user: UserId)
    ensures var before, after := ListOf(s.lists, user), ListOf(Apply(s, e).lists, user);
            after == match e
                     case Check(u, token) =>
                       if u == user && token !in before then before + [token] else before
                     case RemoveAll(u) => if u == user then [] else before
                     case Fire(t) => if t.user == user then Without(before, t.token) else before
                     case Tick(_) => before
  {
  }

  lemma StepNoTokenTwice(s: Tokens, e: Event)
    requires NoTokenTwice(s)
    ensures NoTokenTwice(Apply(s, e))
  {
    forall user | user in Apply(s, e).lists ensures Distinct(Apply(s, e).lists[user]) {
      ListsAfter(s, e, user);
      if e.Fire? && e.timer.user == user {
        WithoutDistinct(ListOf(s.lists, user), e.timer.token);
      }
    }
  }

  lemma StepLiveExactly(s: Tokens, e: Event, user: UserId, token: Token)
    requires LiveExactly(s)
    ensures token in ListOf(Apply(s, e).lists, user) <==>
            exists i :: OpenAt(Apply(s, e).log, i, user, token)
  {
    var s' := Apply(s, e);
    ListsAfter(s, e, user);
    if s'.log != s.log {
      var entry := s'.log[|s.log|];
      assert s'.log == s.log + [entry];
      LogGrows(s.log, entry);
      if exists i :: OpenAt(s.log, i, user, token) {
        var i :| OpenAt(s.log, i, user, token);
        assert !Ends(entry, user, token) ==> OpenAt(s'.log, i, user, token);
      }
      if entry == Accepted(user, token, s.now) {
        assert OpenAt(s'.log, |s.log|, user, token);
      }
    }
  }

  lemma StepTimersPending(s: Tokens, e: Event)
    requires TimersPending(s) && LiveExactly(s)
    ensures TimersPending(Apply(s, e))
  {
    var s' := Apply(s, e);
    if s'.log != s.log {
      var entry := s'.log[|s.log|];
      assert s'.log == s.log + [entry];
      LogGrows(s.log, entry);
      forall i, user, token | OpenAt(s'.log, i, user, token)
        ensures Timer(user, token, s'.log[i].at + CLEAN_MSG_TOKEN_TIMEOUT) in s'.timers
      {
        if i < |s.log| {
          assert OpenAt(s.log, i, user, token) && s'.log[i] == s.log[i];
        }
      }
    }
  }

  lemma StepApart(s: Tokens, e: Event)
    requires AcceptancesApart(s.log) && LiveExactly(s)
    ensures AcceptancesApart(Apply(s, e).log)
  {
    var s' := Apply(s, e);
    if s'.log != s.log {
      var entry := s'.log[|s.log|];
      assert s'.log == s.log + [entry];
      LogGrows(s.log, entry);
      forall i, j, user, token | i < j && AcceptedAt(s'.log, i, user, token)
                                 && AcceptedAt(s'.log, j, user, token)
        ensures EndedBetween(s'.log, i, j, user, token)
      {
        assert AcceptedAt(s.log, i, user, token);
        if j == |s.log| {
          assert token !in ListOf(s.lists, user);
          assert !OpenAt(s.log, i, user, token);
        } else {
          assert AcceptedAt(s.log, j, user, token);
        }
      }
    }
  }

  lemma StepLogInOrder(s: Tokens, e: Event)
    requires LogInOrder(s)
    ensures LogInOrder(Apply(s, e))
  {
  }

  lemma NeverClearedBefore(s: Tokens, e: Event, user: UserId)
    requires NeverCleared(Apply(s, e).log, user)
    ensures NeverCleared(s.log, user)
  {
    var log := Apply(s, e).log;
    forall m | 0 <= m < |s.log| ensures !(s.log[m].Cleared? && s.log[m].user == user) {
      assert log[m] == s.log[m];
    }
  }

  lemma RemovalClears(s: Tokens, user: UserId)
    ensures !NeverCleared(Apply(s, RemoveAll(user)).log, user)
  {
    assert Apply(s, RemoveAll(user)).log[|s.log|] == Cleared(user, s.now);
  }

  lemma StepSpaced(s: Tokens, e: Event, user: UserId, token: Token)
    requires Invariant(s) && Enabled(s, e)
    ensures Spaced(Apply(s, e), user, token)
  {
    var s' := Apply(s, e);
    if NeverCleared(s'.log, user) {
      NeverClearedBefore(s, e, user);
      RemovalClears(s, user);
      assert Spaced(s, user, token);
      ListsAfter(s, e, user);
      if s'.log != s.log {
        var entry := s'.log[|s.log|];
        assert s'.log == s.log + [entry];
        LogGrows(s.log, entry);
        StepTimersExact(s, e, user, token);
      }
    }
  }

  /** Nothing that TimersExact speaks of changed, except that the clock may have moved on. */
  lemma TimersExactFrame(s: Tokens, s': Tokens, user: UserId, token: Token)
    requires TimersExact(s, user, token) && HourApart(s.log, user, token)
    requires forall t: Timer :: t.user == user && t.token == token ==> s'.timers[t] == s.timers[t]
    requires token in ListOf(s'.lists, user) <==> token in ListOf(s.lists, user)
    requires s.log <= s'.log && s.now <= s'.now
    requires forall i :: AcceptedAt(s'.log, i, user, token) ==> AcceptedAt(s.log, i, user, token)
    ensures TimersExact(s', user, token) && HourApart(s'.log, user, token)
  {
    forall t | t in s'.timers && t.user == user && t.token == token ensures t in s.timers {
    }
  }

  lemma AcceptTimersExact(s: Tokens, user: UserId, token: Token)
    requires LogInOrder(s) && TimersExact(s, user, token) && HourApart(s.log, user, token)
    requires token !in ListOf(s.lists, user)
    ensures var s' := Apply(s, Check(user, token));
            TimersExact(s', user, token) && HourApart(s'.log, user, token)
  {
    var s' := Apply(s, Check(user, token));
    var timer := Timer(user, token, s.now + CLEAN_MSG_TOKEN_TIMEOUT);
    LogGrows(s.log, Accepted(user, token, s.now));
    assert forall t :: t in s'.timers && t.user == user && t.token == token ==> t == timer;
    assert s.timers[timer] == 0;
    assert forall i :: AcceptedAt(s'.log, i, user, token) ==> s'.log[i].at <= s.now;
    assert forall i :: AcceptedAt(s.log, i, user, token) ==> s'.log[i] == s.log[i];
  }

  lemma FireTimersExact(s: Tokens, timer: Timer)
    requires TimersExact(s, timer.user, timer.token) && HourApart(s.log, timer.user, timer.token)
    requires Enabled(s, Fire(timer))
    ensures var s' := Apply(s, Fire(timer));
            TimersExact(s', timer.user, timer.token)
            && HourApart(s'.log, timer.user, timer.token)
  {
    var user, token, s' := timer.user, timer.token, Apply(s, Fire(timer));
    ListsAfter(s, Fire(timer), user);
    LogGrows(s.log, Fired(user, token, s.now));
    assert forall i :: AcceptedAt(s'.log, i, user, token) ==> s'.log[i] == s.log[i];
    assert s.timers[timer] == 1;
    forall t: Timer | t.user == user && t.token == token ensures t !in s'.timers {
      if t != timer { assert t !in s.timers; }
    }
  }

  lemma StepTimersExact(s: Tokens, e: Event, user: UserId, token: Token)
    requires LogInOrder(s) && Enabled(s, e) && e != RemoveAll(user)
    requires TimersExact(s, user, token) && HourApart(s.log, user, token)
    ensures TimersExact(Apply(s, e), user, token) && HourApart(Apply(s, e).log, user, token)
  {
    if e == Check(user, token) && token !in ListOf(s.lists, user) {
      AcceptTimersExact(s, user, token);
    } else if e.Fire? && e.timer.user == user && e.timer.token == token {
      FireTimersExact(s, e.timer);
    } else {
      OtherTimersExact(s, e, user, token);
    }
  }

  lemma OtherTimersExact(s: Tokens, e: Event, user: UserId, token: Token)
    requires TimersExact(s, user, token) && HourApart(s.log, user, token)
    requires e != RemoveAll(user) && (e == Check(user, token) ==> token in ListOf(s.lists, user))
    requires e.Fire? ==> e.timer.user != user || e.timer.token != token
    ensures TimersExact(Apply(s, e), user, token) && HourApart(Apply(s, e).log, user, token)
  {
    var s' := Apply(s, e);
    ListsAfter(s, e, user);
    if s'.log != s.log {
      var entry := s'.log[|s.log|];
      assert s'.log == s.log + [entry];
      LogGrows(s.log, entry);
    }
    TimersExactFrame(s, s', user, token);
  }

  lemma StepHourBeforeClear(s: Tokens, e: Event)
    requires Invariant(s) && Enabled(s, e)
    ensures HourBeforeClear(Apply(s, e).log)
  {
    var s' := Apply(s, e);
    if s'.log != s.log {
      var entry := s'.log[|s.log|];
      assert s'.log == s.log + [entry];
      LogGrows(s.log, entry);
      forall i, j, user, token | i < j && AcceptedAt(s'.log, i, user, token)
                                 && AcceptedAt(s'.log, j, user, token)
                                 && UnclearedBefore(s'.log, j, user)
        ensures s'.log[j].at - s'.log[i].at >= CLEAN_MSG_TOKEN_TIMEOUT
      {
        HourAtEntry(s, e, i, j, user, token);
      }
    }
  }

  lemma HourAtEntry(s: Tokens, e: Event, i: int, j: int, user: UserId, token: Token)
    requires Invariant(s) && Enabled(s, e) && i < j
    requires AcceptedAt(Apply(s, e).log, i, user, token) && AcceptedAt(Apply(s, e).log, j, user, token)
    requires UnclearedBefore(Apply(s, e).log, j, user)
    ensures Apply(s, e).log[j].at - Apply(s, e).log[i].at >= CLEAN_MSG_TOKEN_TIMEOUT
  {
    var log := Apply(s, e).log;
    assert forall m :: 0 <= m < |s.log| ==> log[m] == s.log[m];
    assert AcceptedAt(s.log, i, user, token);
    if j < |s.log| {
      assert AcceptedAt(s.log, j, user, token) && UnclearedBefore(s.log, j, user);
    } else {
      assert NeverCleared(s.log, user);
      assert Spaced(s, user, token);
    }
  }

  lemma StepInvariant(s: Tokens, e: Event)
    requires Invariant(s) && Enabled(s, e)
    ensures Invariant(Apply(s, e))
  {
    StepNoTokenTwice(s, e);
    StepTimersPending(s, e);
    StepApart(s, e);
    StepLogInOrder(s, e);
    StepHourBeforeClear(s, e);
    forall user, token
      ensures token in ListOf(Apply(s, e).lists, user) <==>
              exists i :: OpenAt(Apply(s, e).log, i, user, token)
    {
      StepLiveExactly(s, e, user, token);
    }
    forall user, token ensures Spaced(Apply(s, e), user, token) {
      StepSpaced(s, e, user, token);
    }
  }

  lemma {:induction false} RunInvariant(s: Tokens, events: seq<Event>)
    requires Invariant(s) && ValidRun(s, events)
    ensures Invariant(Run(s, events))
    decreases |events|
  {
    if events != [] {
      StepInvariant(s, events[0]);
      RunInvariant(Apply(s, events[0]), events[1..]);
    }
  }

  lemma StartInvariant(now: Time)
    ensures Invariant(Start(now))
  {
  }

  /** Over every run: two accepted sends of one token by one user have a removal of all the user's
      tokens or a fired timer of that token between them; and at least an hour, if the user's tokens
      were not removed all at once before the second. */
  lemma AcceptancesSpaced(now: Time, events: seq<Event>, i: int, j: int, user: UserId, token: Token)
    requires ValidRun(Start(now), events)
    requires var log := Run(Start(now), events).log;
             i < j && AcceptedAt(log, i, user, token) && AcceptedAt(log, j, user, token)
    ensures var log := Run(Start(now), events).log;
            && (exists m :: i < m < j && Ends(log[m], user, token))
            && (UnclearedBefore(log, j, user) ==> log[j].at - log[i].at >= 60 * 60 * 1000)
  {
    StartInvariant(now);
    RunInvariant(Start(now), events);
    assert EndedBetween(Run(Start(now), events).log, i, j, user, token);
  }

  /** A removal of all tokens really can bring two acceptances together: here they share an
      instant. */
  lemma RemovalShortensWindow(now: Time, user: UserId, token: Token)
    ensures var events := [Check(user, token), RemoveAll(user), Check(user, token)];
            && ValidRun(Start(now), events)
            && Run(Start(now), events).log
               == [Accepted(user, token, now), Cleared(user, now), Accepted(user, token, now)]
  {
    var events := [Check(user, token), RemoveAll(user), Check(user, token)];
    var s1 := Apply(Start(now), events[0]);
    var s2 := Apply(s1, events[1]);
    assert events[1..][0] == RemoveAll(user) && events[1..][1..] == [Check(user, token)];
    assert [Check(user, token)][1..] == [];
    assert ValidRun(Apply(s2, Check(user, token)), []);
    assert ValidRun(s2, [Check(user, token)]);
    assert ValidRun(s1, events[1..]);
    assert Run(s2, [Check(user, token)]) == Apply(s2, Check(user, token));
    assert Run(Start(now), events) == Run(s1, events[1..]) == Run(s2, events[1..][1..]);
  }

  /** Over every run, removals of all tokens included: no list holds a token twice, and each listed
      token has a pending timer due an hour after the acceptance that put it there; so when no due
      timer is waiting, every listed token was accepted within the last hour. */
  lemma ListedTokensExpire(now: Time, events: seq<Event>, user: UserId, token: Token)
    requires ValidRun(Start(now), events)
    requires token in ListOf(Run(Start(now), events).lists, user)
    ensures var s := Run(Start(now), events);
            && Distinct(ListOf(s.lists, user))
            && exists i :: OpenAt(s.log, i, user, token)
                 && Timer(user, token, s.log[i].at + 60 * 60 * 1000) in s.timers
                 && ((forall t :: t in s.timers ==> t.due > s.now) ==>
                       s.now - 60 * 60 * 1000 < s.log[i].at <= s.now)
  {
    StartInvariant(now);
    RunInvariant(Start(now), events);
    var s := Run(Start(now), events);
    var i :| OpenAt(s.log, i, user, token);
    assert Timer(user, token, s.log[i].at + 60 * 60 * 1000) in s.timers;
  }

  // ----- told by the events alone

  lemma {:induction false} RunSnoc(s: Tokens, events: seq<Event>, last: Event)
    ensures Run(s, events + [last]) == Apply(Run(s, events), last)
    ensures ValidRun(s, events + [last]) <==> ValidRun(s, events) && Enabled(Run(s, events), last)
    decreases |events|
  {
    if events == [] {
      assert events + [last] == [last] && [last][1..] == [];
      assert Run(Apply(s, last), []) == Apply(s, last) && ValidRun(Apply(s, last), []);
    } else {
      assert (events + [last])[1..] == events[1..] + [last];
      RunSnoc(Apply(s, events[0]), events[1..], last);
    }
  }

  /** The time after some events. */
  function Clock(start: Time, events: seq<Event>): Time {
    if events == [] then start
    else
      var last, before := events[|events| - 1], Clock(start, events[..|events| - 1]);
      if last.Tick? then before + last.elapsed else before
  }

  /** Whether the token was checked since the user's tokens were last removed, and since a timer of
      the token last fired. */
  predicate ListedBy(events: seq<Event>, user: UserId, token: Token) {
    if events == [] then false
    else
      var before := ListedBy(events[..|events| - 1], user, token);
      match events[|events| - 1]
      case Check(u, t) => (u == user && t == token) || before
      case RemoveAll(u) => u != user && before
      case Fire(timer) => !(timer.user == user && timer.token == token) && before
      case Tick(_) => before
  }

  lemma ListedSnoc(events: seq<Event>, last: Event, user: UserId, token: Token)
    ensures ListedBy(events + [last], user, token)
            <==> match last
                 case Check(u, t) => (u == user && t == token) || ListedBy(events, user, token)
                 case RemoveAll(u) => u != user && ListedBy(events, user, token)
                 case Fire(timer) =>
                   !(timer.user == user && timer.token == token) && ListedBy(events, user, token)
                 case Tick(_) => ListedBy(events, user, token)
  {
    assert (events + [last])[..|events|] == events;
  }

  /** Over every run a token is listed exactly when the events say so. */
  lemma {:induction false} ListedExactly(now: Time, events: seq<Event>, user: UserId, token: Token)
    ensures token in ListOf(Run(Start(now), events).lists, user) <==> ListedBy(events, user, token)
    decreases |events|
  {
    if events != [] {
      var front, last := events[..|events| - 1], events[|events| - 1];
      assert events == front + [last];
      RunSnoc(Start(now), front, last);
      ListedExactly(now, front, user, token);
      ListedSnoc(front, last, user, token);
      ListsAfter(Run(Start(now), front), last, user);
    }
  }

  /** How many timers of a token wait for a time: each check of a token that was not listed starts
      one that is due 60 minutes later, and each one that fires is used up. */
  function WaitingBy(start: Time, events: seq<Event>, timer: Timer): int {
    if events == [] then 0
    else
      var last, front := events[|events| - 1], events[..|events| - 1];
      var before := WaitingBy(start, front, timer);
      if last == Check(timer.user, timer.token) && !ListedBy(front, timer.user, timer.token)
         && timer.due == Clock(start, front) + 60 * 60 * 1000 then before + 1
      else if last == Fire(timer) then before - 1
      else before
  }

  lemma WaitingSnoc(start: Time, events: seq<Event>, last: Event, timer: Timer)
    ensures Clock(start, events + [last]) == Clock(start, events) + if last.Tick? then last.elapsed else 0
    ensures WaitingBy(start, events + [last], timer)
            == var before := WaitingBy(start, events, timer);
               if last == Check(timer.user, timer.token) && !ListedBy(events, timer.user, timer.token)
                  && timer.due == Clock(start, events) + 60 * 60 * 1000 then before + 1
               else if last == Fire(timer) then before - 1
               else before
  {
    assert (events + [last])[..|events|] == events;
  }

  lemma TimerMoves(s: Tokens, e: Event, timer: Timer)
    requires Enabled(s, e)
    ensures Apply(s, e).now == s.now + if e.Tick? then e.elapsed else 0
    ensures Apply(s, e).timers[timer]
            == if e == Check(timer.user, timer.token) && timer.token !in ListOf(s.lists, timer.user)
                  && timer.due == s.now + 60 * 60 * 1000 then s.timers[timer] + 1
               else if e == Fire(timer) then s.timers[timer] - 1
               else s.timers[timer]
  {
  }

  lemma {:induction false} TimersCounted(now: Time, events: seq<Event>, timer: Timer)
    requires ValidRun(Start(now), events)
    ensures Run(Start(now), events).now == Clock(now, events)
    ensures Run(Start(now), events).timers[timer] == WaitingBy(now, events, timer)
    decreases |events|
  {
    if events != [] {
      var front, last := events[..|events| - 1], events[|events| - 1];
      assert events == front + [last];
      RunSnoc(Start(now), front, last);
      TimersCounted(now, front, timer);
      WaitingSnoc(now, front, last, timer);
      TimerMoves(Run(Start(now), front), last, timer);
      ListedExactly(now, front, timer.user, timer.token);
    }
  }

  /** What the log should hold. */
  function LogBy(start: Time, events: seq<Event>): seq<Entry> {
    if events == [] then []
    else
      var front := events[..|events| - 1];
      LogBy(start, front) + EntryBy(start, front, events[|events| - 1])
  }

  function EntryBy(start: Time, front: seq<Event>, last: Event): seq<Entry> {
    match last
    case Check(user, token) =>
      if ListedBy(front, user, token) then [] else [Accepted(user, token, Clock(start, front))]
    case RemoveAll(user) => [Cleared(user, Clock(start, front))]
    case Fire(timer) => [Fired(timer.user, timer.token, Clock(start, front))]
    case Tick(_) => []
  }

  /** Over every run the log, of which the other statements speak, tells the events. */
  lemma {:induction false} LogTold(now: Time, events: seq<Event>)
    requires ValidRun(Start(now), events)
    ensures Run(Start(now), events).log == LogBy(now, events)
    decreases |events|
  {
    if events != [] {
      var front, last := events[..|events| - 1], events[|events| - 1];
      assert events == front + [last];
      RunSnoc(Start(now), front, last);
      LogTold(now, front);
      TimersCounted(now, front, Timer(0, "", 0));
      if last.Check? {
        ListedExactly(now, front, last.user, last.token);
      }
    }
  }

  /** The events that can change what one user's list holds. */
  predicate Concerns(e: Event, user: UserId) {
    match e
    case Check(u, _) => u == user
    case RemoveAll(u) => u == user
    case Fire(t) => t.user == user
    case Tick(_) => false
  }

  /** Calls and timers of other users never change a user's list. */
  lemma {:induction false} OthersNeverInterfere(s: Tokens, events: seq<Event>, user: UserId)
    requires forall i :: 0 <= i < |events| ==> !Concerns(events[i], user)
    ensures ListOf(Run(s, events).lists, user) == ListOf(s.lists, user)
    decreases |events|
  {
    if events != [] {
      ListsAfter(s, events[0], user);
      assert !Concerns(events[0], user);
      forall i | 0 <= i < |events[1..]| ensures !Concerns(events[1..][i], user) {
        assert events[1..][i] == events[i + 1];
      }
      OthersNeverInterfere(Apply(s, events[0]), events[1..], user);
    }
  }

  /** The manager over its map, with the event loop's clock and pending timers. */
  class MessageTokensManager {
    var now: Time
    var uniqueMsgTokens: map<UserId, seq<Token>>
    var timers: multiset<Timer>
    var log: seq<Entry>

    function State(): Tokens
      reads this
    {
      Tokens(now, uniqueMsgTokens, timers, log)
    }

    constructor (now: Time)
      ensures State() == Start(now)
    {
      this.now, uniqueMsgTokens, timers, log := now, map[], multiset{}, [];
    }

    method IsUniqueToken(userId: UserId, token: Token) returns (unique: bool)
      modifies this
      ensures State() == Apply(old(State()), Check(userId, token))
      ensures unique <==> token !in ListOf(old(uniqueMsgTokens), userId)
    {
      if userId in uniqueMsgTokens && |uniqueMsgTokens[userId]| > 0 {
        var preTokens := uniqueMsgTokens[userId];
        if token in preTokens {
          return false;
        }
        uniqueMsgTokens := uniqueMsgTokens[userId := preTokens + [token]];
      } else {
        assert ListOf(uniqueMsgTokens, userId) + [token] == [token];
        uniqueMsgTokens := uniqueMsgTokens[userId := [token]];
      }
      log := log + [Accepted(userId, token, now)];
      CleanTokenAutomatically(userId, token);
      unique := true;
    }

    method RemoveAllTokens(userId: UserId)
      modifies this
      ensures State() == Apply(old(State()), RemoveAll(userId))
    {
      uniqueMsgTokens := uniqueMsgTokens - {userId};
      log := log + [Cleared(userId, now)];
    }

    method RemoveSingleToken(userId: UserId, token: Token)
      modifies this`uniqueMsgTokens
      ensures uniqueMsgTokens ==
              var list := ListOf(old(uniqueMsgTokens), userId);
              if list == [] then old(uniqueMsgTokens)
              else old(uniqueMsgTokens)[userId := Without(list, token)]
    {
      if userId in uniqueMsgTokens && |uniqueMsgTokens[userId]| > 0 {
        uniqueMsgTokens := uniqueMsgTokens[userId := Without(uniqueMsgTokens[userId], token)];
      }
    }

    method CleanTokenAutomatically(userId: UserId, token: Token)
      modifies this`timers
      ensures timers == old(timers)
                        + multiset{Timer(userId, token, now + CLEAN_MSG_TOKEN_TIMEOUT)}
    {
      timers := timers + multiset{Timer(userId, token, now + CLEAN_MSG_TOKEN_TIMEOUT)};
    }

    /** The event loop runs the callback of a timer whose time has come. */
    method TimerFires(timer: Timer)
      requires Enabled(State(), Fire(timer))
      modifies this
      ensures State() == Apply(old(State()), Fire(timer))
    {
      timers := timers - multiset{timer};
      log := log + [Fired(timer.user, timer.token, now)];
      RemoveSingleToken(timer.user, timer.token);
    }

    method TimePasses(elapsed: nat)
      modifies this`now
      ensures State() == Apply(old(State()), Tick(elapsed))
    {
      now := now + elapsed;
    }
  }
}
