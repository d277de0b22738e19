/** Friend requests and friends: two tables under send, accept and reject calls. Each call is one
    atomic step that either succeeds or leaves the tables as they were. */
module FriendRequests {
  import opened Domain
  import opened Wrappers

  datatype Status = PENDING | ACCEPTED | REJECTED

  datatype Request = Request(id: RequestId, sender: UserId, recipient: UserId, status: Status)

  datatype Friend = Friend(sender: UserId, recipient: UserId)

  datatype RequestError =
    | SendToMyself
    | InvitationSentBefore
    | UnknownUser            // a foreign key to the user table
    | DuplicateKey           // the unique key on (sender, recipient, status)
    | RecordNotFound         // an update of a row that is not there

  datatype Tables = Tables(users: set<UserId>, requests: seq<Request>, nextId: RequestId,
                           friends: seq<Friend>)

  // ----- queries

  /** `findFirst` with both ends among the two users; rows are tried in table order. */
  function FindSent(requests: seq<Request>, a: UserId, b: UserId): (found: Option<nat>)
    ensures found.Some? ==> found.value < |requests| && InPair(requests[found.value], a, b)
    ensures found.None? ==> forall i :: 0 <= i < |requests| ==> !InPair(requests[i], a, b)
  {
    if requests == [] then None
    else
      var last := |requests| - 1;
      match FindSent(requests[..last], a, b)
      case Some(i) => Some(i)
      case None => if InPair(requests[last], a, b) then Some(last) else None
  }

  predicate InPair(r: Request, a: UserId, b: UserId) {
    r.sender in {a, b} && r.recipient in {a, b}
  }

  predicate Connects(r: Request, a: UserId, b: UserId) {
    (r.sender == a && r.recipient == b) || (r.sender == b && r.recipient == a)
  }

  function FindById(requests: seq<Request>, id: RequestId): (found: Option<nat>)
    ensures found.Some? ==> found.value < |requests| && requests[found.value].id == id
    ensures found.None? ==> forall i :: 0 <= i < |requests| ==> requests[i].id != id
  {
    if requests == [] then None
    else
      var last := |requests| - 1;
      match FindById(requests[..last], id)
      case Some(i) => Some(i)
      case None => if requests[last].id == id then Some(last) else None
  }

  /** `!!findByIds(userId, friendId)`: any request between the two, whatever its status. */
  predicate IsFriend(requests: seq<Request>, userId: UserId, friendId: UserId) {
    exists i :: 0 <= i < |requests| && Connects(requests[i], userId, friendId)
  }

  /** Whether the unique key refuses to hold `r` in row `at` (a new row when `at == |requests|`). */
  predicate KeyTaken(requests: seq<Request>, r: Request, at: nat) {
    exists j :: 0 <= j < |requests| && j != at
      && requests[j].sender == r.sender && requests[j].recipient == r.recipient
      && requests[j].status == r.status
  }

  // ----- calls

  function Create(t: Tables, senderId: UserId, recipientId: UserId): Result<Tables, RequestError> {
    var r := Request(t.nextId, senderId, recipientId, PENDING);
    if senderId !in t.users || recipientId !in t.users then Err(UnknownUser)
    else if KeyTaken(t.requests, r, |t.requests|) then Err(DuplicateKey)
    else Ok(t.(requests := t.requests + [r], nextId := t.nextId + 1))
  }

  function Write(t: Tables, at: nat, r: Request): Result<Tables, RequestError>
    requires at < |t.requests|
  {
    if r.sender !in t.users || r.recipient !in t.users then Err(UnknownUser)
    else if KeyTaken(t.requests, r, at) then Err(DuplicateKey)
    else Ok(t.(requests := t.requests[at := r]))
  }

  /** `update`, which names its row by id. */
  function Overwrite(t: Tables, requestId: RequestId, senderId: UserId, recipientId: UserId, status: Status)
    : Result<Tables, RequestError>
  {
    match FindById(t.requests, requestId)
    case None => Err(RecordNotFound)
    case Some(at) => Write(t, at, Request(requestId, senderId, recipientId, status))
  }

  function Send(t: Tables, senderId: UserId, recipientId: UserId): Result<Tables, RequestError> {
    if senderId == recipientId then Err(SendToMyself)
    else
      match FindSent(t.requests, senderId, recipientId)
      case None => Create(t, senderId, recipientId)
      case Some(at) =>
        var existing := t.requests[at];
        if existing.status != REJECTED then Err(InvitationSentBefore)
        else Overwrite(t, existing.id, senderId, recipientId, PENDING)
  }

  function Act(t: Tables, requestId: RequestId, action: Status): Result<Tables, RequestError> {
    if action == PENDING then Ok(t)
    else
      match FindById(t.requests, requestId)
      case None => Err(RecordNotFound)
      case Some(at) =>
        var r := t.requests[at].(status := action);
        match Write(t, at, r)
        case Err(error) => Err(error)
        case Ok(written) =>
          if action == ACCEPTED then
            Ok(written.(friends := written.friends + [Friend(r.sender, r.recipient)]))
          else Ok(written)
  }

  datatype Call = SendCall(senderId: UserId, recipientId: UserId)
                | ActCall(requestId: RequestId, action: Status)

  function Attempt(t: Tables, call: Call): Result<Tables, RequestError> {
    match call
    case SendCall(senderId, recipientId) => Send(t, senderId, recipientId)
    case ActCall(requestId, action) => Act(t, requestId, action)
  }

  function Step(t: Tables, call: Call): Tables {
    match Attempt(t, call)
    case Ok(t') => t'
    case Err(_) => t
  }

  function Run(t: Tables, calls: seq<Call>): Tables
    decreases |calls|
  {
    if calls == [] then t else Run(Step(t, calls[0]), calls[1..])
  }

  function Empty(users: set<UserId>): Tables {
    Tables(users, [], 0, [])
  }

  // ----- what holds in every reachable state

  /** No request to oneself, one row per unordered pair, ids given once. */
  ghost predicate OnePerPair(t: Tables) {
    && (forall i :: 0 <= i < |t.requests| ==>
          var r := t.requests[i]; r.sender != r.recipient && r.id < t.nextId
                                  && r.sender in t.users && r.recipient in t.users)
    && (forall i, j :: 0 <= i < j < |t.requests| ==>
          t.requests[i].id != t.requests[j].id
          && !Connects(t.requests[j], t.requests[i].sender, t.requests[i].recipient))
  }

  ghost predicate HasFriendRow(friends: seq<Friend>, a: UserId, b: UserId) {
    exists k :: 0 <= k < |friends| && friends[k] in {Friend(a, b), Friend(b, a)}
  }

  /** The two tables agree: accepted requests have friend rows, friend rows have requests. */
  ghost predicate FriendsAgree(t: Tables) {
    && (forall i :: 0 <= i < |t.requests| && t.requests[i].status == ACCEPTED ==>
          HasFriendRow(t.friends, t.requests[i].sender, t.requests[i].recipient))
    && (forall k :: 0 <= k < |t.friends| ==>
          IsFriend(t.requests, t.friends[k].sender, t.friends[k].recipient))
  }

  ghost predicate Consistent(t: Tables) { OnePerPair(t) && FriendsAgree(t) }

  /** Rows stay where they are and keep their id and their unordered pair. */
  ghost predicate Continues(t: Tables, u: Tables) {
    && t.users == u.users && |t.requests| <= |u.requests|
    && forall i :: 0 <= i < |t.requests| ==>
         u.requests[i].id == t.requests[i].id
         && Connects(u.requests[i], t.requests[i].sender, t.requests[i].recipient)
  }

  lemma PairFound(t: Tables, a: UserId, b: UserId)
    requires OnePerPair(t) && a != b
    ensures FindSent(t.requests, a, b).Some? <==> IsFriend(t.requests, a, b)
    ensures FindSent(t.requests, a, b).Some? ==>
              Connects(t.requests[FindSent(t.requests, a, b).value], a, b)
  {
    var found := FindSent(t.requests, a, b);
    if IsFriend(t.requests, a, b) {
      var i :| 0 <= i < |t.requests| && Connects(t.requests[i], a, b);
      assert InPair(t.requests[i], a, b);
    }
  }

  /** With one row per pair the unique key has room for any direction and status of that pair. */
  lemma KeyNeverTaken(t: Tables, at: nat, r: Request)
    requires OnePerPair(t) && at < |t.requests|
    requires Connects(r, t.requests[at].sender, t.requests[at].recipient)
    ensures !KeyTaken(t.requests, r, at)
  {
    forall j | 0 <= j < |t.requests| && j != at
      ensures !Connects(t.requests[j], t.requests[at].sender, t.requests[at].recipient)
    {
    }
  }

  /** Ids are given once, so the row found by the id of a row is that row. */
  lemma OverwriteFinds(t: Tables, at: nat, senderId: UserId, recipientId: UserId, status: Status)
    requires OnePerPair(t) && at < |t.requests|
    ensures Overwrite(t, t.requests[at].id, senderId, recipientId, status)
            == Write(t, at, Request(t.requests[at].id, senderId, recipientId, status))
  {
    var found := FindById(t.requests, t.requests[at].id);
    SameIdSameRow(t, found.value, at);
  }

  lemma SameIdSameRow(t: Tables, i: nat, j: nat)
    requires OnePerPair(t) && i < |t.requests| && j < |t.requests|
    ensures t.requests[i].id == t.requests[j].id ==> i == j
  {
  }

  lemma WriteConsistent(t: Tables, at: nat, r: Request)
    requires OnePerPair(t) && at < |t.requests|
    requires Connects(r, t.requests[at].sender, t.requests[at].recipient)
    requires r.id == t.requests[at].id
    ensures Write(t, at, r) == Ok(t.(requests := t.requests[at := r]))
    ensures OnePerPair(t.(requests := t.requests[at := r]))
    ensures Continues(t, t.(requests := t.requests[at := r]))
  {
    KeyNeverTaken(t, at, r);
    var u := t.(requests := t.requests[at := r]);
    forall i, j | 0 <= i < j < |u.requests|
      ensures u.requests[i].id != u.requests[j].id
      ensures !Connects(u.requests[j], u.requests[i].sender, u.requests[i].recipient)
    {
      assert t.requests[i].id != t.requests[j].id;
    }
  }

  lemma ContinuesKeepsFriends(t: Tables, u: Tables, a: UserId, b: UserId)
    requires Continues(t, u) && IsFriend(t.requests, a, b)
    ensures IsFriend(u.requests, a, b)
  {
    var i :| 0 <= i < |t.requests| && Connects(t.requests[i], a, b);
    assert Connects(u.requests[i], a, b);
  }

  lemma ContinuesTransitive(t: Tables, u: Tables, v: Tables)
    requires Continues(t, u) && Continues(u, v)
    ensures Continues(t, v)
  {
  }

  lemma SendConsistent(t: Tables, senderId: UserId, recipientId: UserId)
    requires Consistent(t)
    ensures Send(t, senderId, recipientId) != Err(DuplicateKey)
    ensures Send(t, senderId, recipientId).Ok? ==>
              var u := Send(t, senderId, recipientId).value;
              Consistent(u) && Continues(t, u) && IsFriend(u.requests, senderId, recipientId)
  {
    if senderId != recipientId {
      PairFound(t, senderId, recipientId);
      match FindSent(t.requests, senderId, recipientId) {
        case Some(at) =>
          var r := Request(t.requests[at].id, senderId, recipientId, PENDING);
          OverwriteFinds(t, at, senderId, recipientId, PENDING);
          WriteConsistent(t, at, r);
          var u := t.(requests := t.requests[at := r]);
          FriendsKept(t, u, at);
          assert Connects(u.requests[at], senderId, recipientId);
        case None =>
          var r := Request(t.nextId, senderId, recipientId, PENDING);
          CreateConsistent(t, r);
      }
    }
  }

  lemma FriendsKept(t: Tables, u: Tables, at: nat)
    requires Consistent(t) && Continues(t, u) && |u.requests| == |t.requests| && at < |t.requests|
    requires u.friends == t.friends
    requires forall i :: 0 <= i < |t.requests| && i != at ==> u.requests[i] == t.requests[i]
    requires u.requests[at].status != ACCEPTED
    ensures FriendsAgree(u)
  {
    forall k | 0 <= k < |u.friends|
      ensures IsFriend(u.requests, u.friends[k].sender, u.friends[k].recipient)
    {
      ContinuesKeepsFriends(t, u, t.friends[k].sender, t.friends[k].recipient);
    }
  }

  lemma CreateConsistent(t: Tables, r: Request)
    requires Consistent(t) && r.id == t.nextId && r.sender != r.recipient && r.status == PENDING
    requires !IsFriend(t.requests, r.sender, r.recipient)
    ensures !KeyTaken(t.requests, r, |t.requests|)
    ensures r.sender in t.users && r.recipient in t.users ==>
              var u := t.(requests := t.requests + [r], nextId := t.nextId + 1);
              Consistent(u) && Continues(t, u) && IsFriend(u.requests, r.sender, r.recipient)
  {
    forall j | 0 <= j < |t.requests| ensures !Connects(t.requests[j], r.sender, r.recipient) {
    }
    if r.sender in t.users && r.recipient in t.users {
      var u := t.(requests := t.requests + [r], nextId := t.nextId + 1);
      assert Continues(t, u);
      assert u.requests[|t.requests|] == r;
      forall k | 0 <= k < |u.friends|
        ensures IsFriend(u.requests, u.friends[k].sender, u.friends[k].recipient)
      {
        ContinuesKeepsFriends(t, u, t.friends[k].sender, t.friends[k].recipient);
      }
    }
  }

  lemma ActConsistent(t: Tables, requestId: RequestId, action: Status)
    requires Consistent(t)
    ensures Act(t, requestId, action) !in {Err(DuplicateKey), Err(UnknownUser)}
    ensures Act(t, requestId, action).Ok? ==>
              Consistent(Act(t, requestId, action).value)
              && Continues(t, Act(t, requestId, action).value)
  {
    match FindById(t.requests, requestId) {
      case None =>
      case Some(at) =>
        var r := t.requests[at].(status := action);
        WriteConsistent(t, at, r);
        var written := t.(requests := t.requests[at := r]);
        if action == REJECTED {
          FriendsKept(t, written, at);
        } else if action == ACCEPTED {
          AcceptConsistent(t, written, at);
        }
    }
  }

  lemma AcceptConsistent(t: Tables, written: Tables, at: nat)
    requires Consistent(t) && at < |t.requests|
    requires var r := t.requests[at].(status := ACCEPTED);
             written == t.(requests := t.requests[at := r]) && Continues(t, written)
    ensures var r := t.requests[at];
            FriendsAgree(written.(friends := t.friends + [Friend(r.sender, r.recipient)]))
  {
    var r := written.requests[at];
    var friends := t.friends + [Friend(r.sender, r.recipient)];
    assert friends[|t.friends|] == Friend(r.sender, r.recipient);
    forall i | 0 <= i < |written.requests| && written.requests[i].status == ACCEPTED
      ensures HasFriendRow(friends, written.requests[i].sender, written.requests[i].recipient)
    {
      if i != at {
        var k :| 0 <= k < |t.friends| && t.friends[k] in
          {Friend(t.requests[i].sender, t.requests[i].recipient),
           Friend(t.requests[i].recipient, t.requests[i].sender)};
        assert friends[k] == t.friends[k];
      }
    }
    forall k | 0 <= k < |friends|
      ensures IsFriend(written.requests, friends[k].sender, friends[k].recipient)
    {
      if k < |t.friends| {
        ContinuesKeepsFriends(t, written, t.friends[k].sender, t.friends[k].recipient);
      } else {
        assert Connects(written.requests[at], friends[k].sender, friends[k].recipient);
      }
    }
  }

  lemma ContinuesReflexive(t: Tables)
    ensures Continues(t, t)
  {
  }

  lemma StepConsistent(t: Tables, call: Call)
    requires Consistent(t)
    ensures Attempt(t, call) != Err(DuplicateKey)
    ensures Consistent(Step(t, call)) && Continues(t, Step(t, call))
  {
    ContinuesReflexive(t);
    match call {
      case SendCall(senderId, recipientId) => SendConsistent(t, senderId, recipientId);
      case ActCall(requestId, action) => ActConsistent(t, requestId, action);
    }
  }

  lemma {:induction false} RunConsistent(t: Tables, calls: seq<Call>)
    requires Consistent(t)
    ensures Consistent(Run(t, calls)) && Continues(t, Run(t, calls))
    decreases |calls|
  {
    if calls == [] {
      ContinuesReflexive(t);
    } else {
      StepConsistent(t, calls[0]);
      RunConsistent(Step(t, calls[0]), calls[1..]);
      ContinuesTransitive(t, Step(t, calls[0]), Run(t, calls));
    }
  }

  /** Over every run from empty tables: no request to oneself, at most one per unordered pair,
      every accepted pair has a friend row, every friend row a request, and the unique key refuses no
      write. */
  lemma EveryRunConsistent(users: set<UserId>, calls: seq<Call>, next: Call)
    ensures Consistent(Run(Empty(users), calls))
    ensures Attempt(Run(Empty(users), calls), next) != Err(DuplicateKey)
  {
    RunConsistent(Empty(users), calls);
    StepConsistent(Run(Empty(users), calls), next);
  }

  /** The accept actions of a run that went through. */
  function AcceptsIn(t: Tables, calls: seq<Call>): nat
    decreases |calls|
  {
    if calls == [] then 0
    else
      var call := calls[0];
      var one := if call.ActCall? && call.action == ACCEPTED && Attempt(t, call).Ok? then 1 else 0;
      one + AcceptsIn(Step(t, call), calls[1..])
  }

  lemma {:induction false} FriendRowsCountAccepts(t: Tables, calls: seq<Call>)
    ensures |Run(t, calls).friends| == |t.friends| + AcceptsIn(t, calls)
    decreases |calls|
  {
    if calls != [] {
      FriendRowsCountAccepts(Step(t, calls[0]), calls[1..]);
    }
  }

  lemma {:induction false} RunAppend(t: Tables, a: seq<Call>, b: seq<Call>)
    ensures Run(t, a + b) == Run(Run(t, a), b)
    decreases |a|
  {
    if a == [] {
      assert a + b == b;
    } else {
      assert (a + b)[1..] == a[1..] + b;
      RunAppend(Step(t, a[0]), a[1..], b);
    }
  }

  /** A request keeps its id and its unordered pair through the rest of any run, also when a resend
      after a rejection turns it round. */
  lemma RequestsPersist(users: set<UserId>, calls: seq<Call>, more: seq<Call>)
    ensures Continues(Run(Empty(users), calls), Run(Empty(users), calls + more))
  {
    RunConsistent(Empty(users), calls);
    RunConsistent(Run(Empty(users), calls), more);
    RunAppend(Empty(users), calls, more);
  }

  lemma IsFriendSymmetric(requests: seq<Request>, a: UserId, b: UserId)
    ensures IsFriend(requests, a, b) <==> IsFriend(requests, b, a)
  {
    if IsFriend(requests, a, b) {
      var i :| 0 <= i < |requests| && Connects(requests[i], a, b);
      assert Connects(requests[i], b, a);
    }
    if IsFriend(requests, b, a) {
      var i :| 0 <= i < |requests| && Connects(requests[i], b, a);
      assert Connects(requests[i], a, b);
    }
  }

  /** A resend goes through exactly after a rejection, by either side, and a first send exactly
      between two different known users with no request yet. */
  lemma SendSucceedsExactly(t: Tables, senderId: UserId, recipientId: UserId)
    requires Consistent(t)
    ensures Send(t, senderId, recipientId).Ok? <==>
            && senderId != recipientId && senderId in t.users && recipientId in t.users
            && forall i :: 0 <= i < |t.requests| && Connects(t.requests[i], senderId, recipientId) ==>
                 t.requests[i].status == REJECTED
    ensures Send(t, senderId, recipientId) == Err(SendToMyself) <==> senderId == recipientId
    ensures Send(t, senderId, recipientId) == Err(UnknownUser) <==>
            senderId != recipientId && (senderId !in t.users || recipientId !in t.users)
    ensures Send(t, senderId, recipientId) == Err(InvitationSentBefore) <==>
            senderId != recipientId
            && exists i :: 0 <= i < |t.requests| && Connects(t.requests[i], senderId, recipientId)
                           && t.requests[i].status in {PENDING, ACCEPTED}
    ensures Send(t, senderId, recipientId).Ok? ==>
              var u := Send(t, senderId, recipientId).value;
              exists i :: 0 <= i < |u.requests|
                && u.requests[i] == Request(u.requests[i].id, senderId, recipientId, PENDING)
                && (i < |t.requests| ==> u.requests[i].id == t.requests[i].id)
  {
    if senderId != recipientId {
      PairFound(t, senderId, recipientId);
      match FindSent(t.requests, senderId, recipientId) {
        case None =>
          CreateConsistent(t, Request(t.nextId, senderId, recipientId, PENDING));
          if Send(t, senderId, recipientId).Ok? {
            var u := Send(t, senderId, recipientId).value;
            assert u.requests[|t.requests|] == Request(t.nextId, senderId, recipientId, PENDING);
          }
        case Some(at) =>
          var r := Request(t.requests[at].id, senderId, recipientId, PENDING);
          OverwriteFinds(t, at, senderId, recipientId, PENDING);
          WriteConsistent(t, at, r);
          assert t.requests[at := r][at] == r;
      }
    }
  }

  lemma FriendsKnown(t: Tables, a: UserId, b: UserId)
    requires Consistent(t)
    ensures IsFriend(t.requests, a, b) ==> a != b && a in t.users && b in t.users
  {
    if IsFriend(t.requests, a, b) {
      var i :| 0 <= i < |t.requests| && Connects(t.requests[i], a, b);
      assert t.requests[i].sender != t.requests[i].recipient;
    }
  }

  /** An action goes through exactly when it is the pending one, which does nothing, or the request
      is there; that request alone gets the status, and a friend row comes with an acceptance. */
  lemma ActSucceedsExactly(t: Tables, requestId: RequestId, action: Status)
    requires Consistent(t)
    ensures Act(t, requestId, action).Ok? <==>
            action == PENDING || exists i :: 0 <= i < |t.requests| && t.requests[i].id == requestId
    ensures Act(t, requestId, action).Err? ==> Act(t, requestId, action) == Err(RecordNotFound)
    ensures action == PENDING ==> Act(t, requestId, action) == Ok(t)
    ensures Act(t, requestId, action).Ok? && action != PENDING ==>
              var u := Act(t, requestId, action).value;
              exists i :: 0 <= i < |t.requests| == |u.requests| && t.requests[i].id == requestId
                && u.requests[i] == t.requests[i].(status := action)
                && (forall j :: 0 <= j < |t.requests| && j != i ==> u.requests[j] == t.requests[j])
                && u.friends == t.friends + (if action == ACCEPTED
                                             then [Friend(t.requests[i].sender, t.requests[i].recipient)]
                                             else [])
  {
    match FindById(t.requests, requestId) {
      case None =>
      case Some(at) =>
        var r := t.requests[at].(status := action);
        WriteConsistent(t, at, r);
        assert t.requests[at := r][at] == r;
    }
  }

  /** The history of two users: whether one has asked the other with success. */
  predicate Asks(t: Tables, call: Call, a: UserId, b: UserId) {
    call.SendCall? && Attempt(t, call).Ok?
    && (call == SendCall(a, b) || call == SendCall(b, a))
  }

  predicate AskedIn(t: Tables, calls: seq<Call>, a: UserId, b: UserId)
    decreases |calls|
  {
    calls != [] && (Asks(t, calls[0], a, b) || AskedIn(Step(t, calls[0]), calls[1..], a, b))
  }

  lemma AskingMakesFriends(t: Tables, call: Call, a: UserId, b: UserId)
    requires Consistent(t)
    ensures IsFriend(Step(t, call).requests, a, b) <==>
            IsFriend(t.requests, a, b) || Asks(t, call, a, b)
  {
    StepConsistent(t, call);
    if IsFriend(t.requests, a, b) {
      ContinuesKeepsFriends(t, Step(t, call), a, b);
    }
    if Asks(t, call, a, b) {
      SendConsistent(t, call.senderId, call.recipientId);
      IsFriendSymmetric(Step(t, call).requests, a, b);
    }
    if IsFriend(Step(t, call).requests, a, b) {
      OnlyAskingMakesFriends(t, call, a, b);
    }
  }

  lemma OnlyAskingMakesFriends(t: Tables, call: Call, a: UserId, b: UserId)
    requires Continues(t, Step(t, call)) && IsFriend(Step(t, call).requests, a, b)
    ensures IsFriend(t.requests, a, b) || Asks(t, call, a, b)
  {
    var u := Step(t, call);
    var i :| 0 <= i < |u.requests| && Connects(u.requests[i], a, b);
    if i < |t.requests| {
      assert Connects(t.requests[i], a, b);
    } else {
      OnlySendAdds(t, call);
    }
  }

  lemma OnlySendAdds(t: Tables, call: Call)
    requires |Step(t, call).requests| > |t.requests|
    ensures call.SendCall? && Attempt(t, call).Ok?
    ensures Step(t, call).requests
            == t.requests + [Request(t.nextId, call.senderId, call.recipientId, PENDING)]
  {
  }

  /** Over every run two users pass for friends exactly when one has asked the other with success at
      some time, whatever became of the request. */
  lemma {:induction false} FriendsExactlyAsked(t: Tables, calls: seq<Call>, a: UserId, b: UserId)
    requires Consistent(t)
    ensures IsFriend(Run(t, calls).requests, a, b) <==>
            IsFriend(t.requests, a, b) || AskedIn(t, calls, a, b)
    decreases |calls|
  {
    if calls != [] {
      AskingMakesFriends(t, calls[0], a, b);
      StepConsistent(t, calls[0]);
      FriendsExactlyAsked(Step(t, calls[0]), calls[1..], a, b);
    }
  }

  /** The service over its tables. */
  class FriendRequestService {
    const users: set<UserId>
    var requests: seq<Request>
    var nextId: RequestId
    var friends: seq<Friend>

    ghost function State(): Tables
      reads this
    {
      Tables(users, requests, nextId, friends)
    }

    constructor (users: set<UserId>)
      ensures State() == Empty(users)
    {
      this.users := users;
      requests, nextId, friends := [], 0, [];
    }

    method CreateRequest(senderId: UserId, recipientId: UserId) returns (r: Result<Request, RequestError>)
      modifies this
      ensures match Create(old(State()), senderId, recipientId)
              case Err(error) => r == Err(error) && State() == old(State())
              case Ok(t) => State() == t && r == Ok(Request(old(nextId), senderId, recipientId, PENDING))
      ensures r == Err(DuplicateKey) <==>
              senderId in users && recipientId in users
              && exists k :: k in old(requests) && k.sender == senderId && k.recipient == recipientId
                             && k.status == PENDING
    {
      var row := Request(nextId, senderId, recipientId, PENDING);
      if senderId !in users || recipientId !in users {
        return Err(UnknownUser);
      }
      if KeyTaken(requests, row, |requests|) {
        return Err(DuplicateKey);
      }
      requests, nextId := requests + [row], nextId + 1;
      r := Ok(row);
    }

    /** One row is written, or the keys of the table refuse it. */
    method WriteRow(at: nat, row: Request) returns (r: Result<Request, RequestError>)
      requires at < |requests|
      modifies this
      ensures match Write(old(State()), at, row)
              case Err(error) => r == Err(error) && State() == old(State())
              case Ok(t) => State() == t && r == Ok(row)
    {
      if row.sender !in users || row.recipient !in users {
        return Err(UnknownUser);
      }
      if KeyTaken(requests, row, at) {
        return Err(DuplicateKey);
      }
      requests := requests[at := row];
      r := Ok(row);
    }

    method Update(requestId: RequestId, senderId: UserId, recipientId: UserId, status: Status)
      returns (r: Result<Request, RequestError>)
      modifies this
      ensures match Overwrite(old(State()), requestId, senderId, recipientId, status)
              case Err(error) => r == Err(error) && State() == old(State())
              case Ok(t) => State() == t && r == Ok(Request(requestId, senderId, recipientId, status))
                            && r.value in requests
    {
      var at := FindById(requests, requestId);
      if at.None? {
        return Err(RecordNotFound);
      }
      r := WriteRow(at.value, Request(requestId, senderId, recipientId, status));
      assert r.Ok? ==> requests[at.value] == r.value;
    }

    method SendFriendRequest(senderId: UserId, recipientId: UserId)
      returns (r: Result<Request, RequestError>)
      modifies this
      ensures r.Err? ==> State() == old(State())
      ensures State() == Step(old(State()), SendCall(senderId, recipientId))
      ensures match Send(old(State()), senderId, recipientId)
              case Err(error) => r == Err(error)
              case Ok(_) => r.Ok? && r.value in requests
                            && r.value == Request(r.value.id, senderId, recipientId, PENDING)
    {
      if senderId == recipientId {
        return Err(SendToMyself);
      }
      var existing := FindSent(requests, senderId, recipientId);
      if existing.Some? {
        var row := requests[existing.value];
        if row.status == PENDING || row.status == ACCEPTED {
          return Err(InvitationSentBefore);
        }
        r := Update(row.id, senderId, recipientId, PENDING);
      } else {
        r := CreateRequest(senderId, recipientId);
        assert r.Ok? ==> requests[|requests| - 1] == r.value;
      }
    }

    method FriendRequestAction(requestId: RequestId, action: Status)
      returns (r: Result<(), RequestError>)
      modifies this
      ensures r.Err? ==> State() == old(State())
      ensures State() == Step(old(State()), ActCall(requestId, action))
      ensures r == (match Act(old(State()), requestId, action)
                    case Err(error) => Err(error)
                    case Ok(_) => Ok(()))
    {
      if action == PENDING {
        return Ok(());
      }
      var at := FindById(requests, requestId);
      if at.None? {
        return Err(RecordNotFound);
      }
      var written := WriteRow(at.value, requests[at.value].(status := action));
      if written.Err? {
        return Err(written.error);
      }
      if action == ACCEPTED {
        friends := friends + [Friend(written.value.sender, written.value.recipient)];
      }
      r := Ok(());
    }
  }
}
