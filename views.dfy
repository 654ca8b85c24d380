/**
 * The request handlers of the friends app as transitions of the store: each
 * handler runs an ordered chain of checks and then updates the FriendRequest
 * and Friend tables. The caller is the authenticated user; the target is the
 * `username` field of the request body.
 */
module Views {
  import opened Models
  import opened Serializers

  /** The distinct results of the handlers (the Russian messages are not modelled). */
  datatype Outcome =
    | NotFound       // no user has that username
    | Self           // the target is the caller
    | Sent           // a new request was created
    | AutoAdded      // the target had already asked the caller: now friends
    | AlreadyExists  // the caller had already asked the target
    | Accepted
    | NotAccepted
    | Rejected
    | NotRejected
    | NotFriend
    | Deleted

  /** The HTTP status the handler returns with each outcome. */
  function Status(o: Outcome): (code: int)
    ensures code in {200, 201, 400}
    ensures code == 200 <==> o == AlreadyExists
  {
    match o
    case Sent | AutoAdded | Accepted | Rejected | Deleted => 201
    case AlreadyExists => 200
    case NotFound | Self | NotAccepted | NotRejected | NotFriend => 400
  }

  /** What a handler answers and the store it leaves behind. */
  datatype Step = Step(outcome: Outcome, next: State)

  // ---------------------------------------------------------------------------
  // The handlers
  //
  // None of them touches the User table (each says so in its contract), so a
  // user's email and issued token stay as they were.

  /**
   * SendRequestToUser: look the target up, refuse the caller itself, report an
   * existing caller -> target request, turn an existing target -> caller
   * request into a friendship, or else create the caller -> target request.
   * There is no check for an existing friendship.
   */
  function SendRequestTo(s: State, caller: Username, target: Username): (t: Step)
    ensures t.outcome in {NotFound, Self, AlreadyExists, AutoAdded, Sent}
    ensures t.next.accounts == s.accounts
    ensures t.outcome !in {AutoAdded, Sent} ==> t.next == s
    ensures t.outcome != AutoAdded ==> t.next.friends == s.friends
  {
    if target !in s.accounts then Step(NotFound, s)
    else if caller == target then Step(Self, s)
    else if Request(caller, target) in s.pending then Step(AlreadyExists, s)
    else if Request(target, caller) in s.pending then
      var reverse := Request(target, caller);
      Step(AutoAdded, s.(friends := Accept(s.friends, reverse), pending := RemoveFirst(s.pending, reverse)))
    else Step(Sent, s.(pending := s.pending + [Request(caller, target)]))
  }

  /** AcceptRequestFromUser: accept and delete the sender -> caller request, if there is one. */
  function AcceptRequestFrom(s: State, caller: Username, sender: Username): (t: Step)
    ensures t.outcome in {NotFound, Accepted, NotAccepted}
    ensures t.next.accounts == s.accounts
    ensures t.outcome != Accepted ==> t.next == s
  {
    if sender !in s.accounts then Step(NotFound, s)
    else if Request(sender, caller) in s.pending then
      var req := Request(sender, caller);
      Step(Accepted, s.(friends := Accept(s.friends, req), pending := RemoveFirst(s.pending, req)))
    else Step(NotAccepted, s)
  }

  /** RejectRequestFromUser: delete the sender -> caller request, if there is one. */
  function RejectRequestFrom(s: State, caller: Username, sender: Username): (t: Step)
    ensures t.outcome in {NotFound, Rejected, NotRejected}
    ensures t.next.accounts == s.accounts && t.next.friends == s.friends
    ensures t.outcome != Rejected ==> t.next == s
  {
    if sender !in s.accounts then Step(NotFound, s)
    else if Request(sender, caller) in s.pending then
      Step(Rejected, s.(pending := RemoveFirst(s.pending, Request(sender, caller))))
    else Step(NotRejected, s)
  }

  /**
   * DeleteFriend: look the target up, refuse the caller itself (the handler
   * compares the given username with the caller's, which is the same test),
   * refuse a target outside the caller's Friend row, else lose_friend in both
   * directions.
   */
  function DeleteFriend(s: State, caller: Username, target: Username): (t: Step)
    ensures t.outcome in {NotFound, Self, NotFriend, Deleted}
    ensures t.next.accounts == s.accounts && t.next.pending == s.pending
    ensures t.outcome != Deleted ==> t.next == s
  {
    if target !in s.accounts then Step(NotFound, s)
    else if target == caller then Step(Self, s)
    else if target !in FriendsOf(s.friends, caller) then Step(NotFriend, s)
    else Step(Deleted, s.(friends := LoseFriend(LoseFriend(s.friends, caller, target), target, caller)))
  }

  /** AllUsers: every user except the caller. */
  function AllUsers(s: State, caller: Username): (names: set<Username>)
    ensures forall u :: u in names <==> u in s.accounts && u != caller
    ensures caller in s.accounts ==> |names| == |s.accounts| - 1
  {
    var names := s.accounts.Keys - {caller};
    assert caller in s.accounts ==> s.accounts.Keys == names + {caller};
    names
  }

  // ---------------------------------------------------------------------------
  // Invariants

  /** Accepting a pending request and deleting its row keeps every store invariant. */
  lemma AcceptAndDeletePreservesValid(s: State, r: Request)
    requires Valid(s) && r in s.pending
    ensures Valid(s.(friends := Accept(s.friends, r), pending := RemoveFirst(s.pending, r)))
  {
    var t := s.(friends := Accept(s.friends, r), pending := RemoveFirst(s.pending, r));
    RemoveFirstMembers(s.pending, r);
    AcceptIrreflexive(s.friends, r);
    assert ReferencesExist(t) by {
      forall u | u in t.friends ensures u in t.accounts && t.friends[u] <= t.accounts.Keys {
        assert t.friends[u] == FriendsOf(t.friends, u);
      }
    }
    assert NoSelfRequests(t.pending) && NoCrossedRequests(t.pending);
  }

  /** Deleting a row keeps every store invariant. */
  lemma DeleteRowPreservesValid(s: State, r: Request)
    requires Valid(s)
    ensures Valid(s.(pending := RemoveFirst(s.pending, r)))
  {
    RemoveFirstMembers(s.pending, r);
  }

  /** Creating a request between two other users with no request between them keeps every store invariant. */
  lemma CreateRowPreservesValid(s: State, r: Request)
    requires Valid(s) && r.from in s.accounts && r.to in s.accounts && r.from != r.to
    requires r !in s.pending && Flip(r) !in s.pending
    ensures Valid(s.(pending := s.pending + [r]))
  {
    var rows := s.pending + [r];
    assert multiset(rows) == multiset(s.pending) + multiset{r};
    assert multiset(s.pending)[r] == 0;
    assert forall x :: x in rows <==> x in s.pending || x == r;
  }

  /** Sending keeps every store invariant. */
  lemma SendPreservesValid(s: State, caller: Username, target: Username)
    requires Valid(s) && caller in s.accounts
    ensures Valid(SendRequestTo(s, caller, target).next)
  {
    var t := SendRequestTo(s, caller, target);
    if t.outcome == AutoAdded {
      AcceptAndDeletePreservesValid(s, Request(target, caller));
    } else if t.outcome == Sent {
      CreateRowPreservesValid(s, Request(caller, target));
    }
  }

  /** Accepting keeps every store invariant. */
  lemma AcceptPreservesValid(s: State, caller: Username, sender: Username)
    requires Valid(s)
    ensures Valid(AcceptRequestFrom(s, caller, sender).next)
  {
    if AcceptRequestFrom(s, caller, sender).outcome == Accepted {
      AcceptAndDeletePreservesValid(s, Request(sender, caller));
    }
  }

  /** Rejecting keeps every store invariant. */
  lemma RejectPreservesValid(s: State, caller: Username, sender: Username)
    requires Valid(s)
    ensures Valid(RejectRequestFrom(s, caller, sender).next)
  {
    DeleteRowPreservesValid(s, Request(sender, caller));
  }

  /** Deleting a friend keeps every store invariant. */
  lemma DeletePreservesValid(s: State, caller: Username, target: Username)
    requires Valid(s) && caller in s.accounts
    ensures Valid(DeleteFriend(s, caller, target).next)
  {
    if DeleteFriend(s, caller, target).outcome == Deleted {
      UnfriendSymmetric(s.friends, caller, target);
    }
  }

  // ---------------------------------------------------------------------------
  // What each handler does

  /** Every handler answers an unknown username with NotFound and changes nothing. */
  lemma UnknownUserChangesNothing(s: State, caller: Username, name: Username)
    requires name !in s.accounts
    ensures SendRequestTo(s, caller, name) == Step(NotFound, s)
    ensures AcceptRequestFrom(s, caller, name) == Step(NotFound, s)
    ensures RejectRequestFrom(s, caller, name) == Step(NotFound, s)
    ensures DeleteFriend(s, caller, name) == Step(NotFound, s)
  {
  }

  /** Sending to or deleting oneself is refused with Self and changes nothing. */
  lemma SelfChangesNothing(s: State, caller: Username)
    requires caller in s.accounts
    ensures SendRequestTo(s, caller, caller) == Step(Self, s)
    ensures DeleteFriend(s, caller, caller) == Step(Self, s)
  {
  }

  /**
   * With no request between the two users, sending creates exactly the
   * caller -> target request: it is appended to the caller's sent list and the
   * target's received list, and nothing else changes.
   */
  lemma SendCreatesRequest(s: State, caller: Username, target: Username)
    requires target in s.accounts && caller != target
    requires Request(caller, target) !in s.pending && Request(target, caller) !in s.pending
    ensures var t := SendRequestTo(s, caller, target);
      && t.outcome == Sent && Status(t.outcome) == 201
      && t.next.accounts == s.accounts && t.next.friends == s.friends
      && (forall r :: r in t.next.pending <==> r in s.pending || r == Request(caller, target))
      && SentBy(t.next.pending, caller) == SentBy(s.pending, caller) + [Request(caller, target)]
      && ReceivedBy(t.next.pending, target) == ReceivedBy(s.pending, target) + [Request(caller, target)]
      && (forall u :: u != caller ==> SentBy(t.next.pending, u) == SentBy(s.pending, u))
      && (forall u :: u != target ==> ReceivedBy(t.next.pending, u) == ReceivedBy(s.pending, u))
  {
    var req := Request(caller, target);
    SentByAppend(s.pending, req, caller);
    ReceivedByAppend(s.pending, req, target);
    forall u | u != caller ensures SentBy(s.pending + [req], u) == SentBy(s.pending, u) {
      SentByAppend(s.pending, req, u);
    }
    forall u | u != target ensures ReceivedBy(s.pending + [req], u) == ReceivedBy(s.pending, u) {
      ReceivedByAppend(s.pending, req, u);
    }
  }

  /**
   * When the target had already asked the caller, sending makes them friends
   * both ways, deletes that request, and creates no caller -> target request.
   */
  lemma SendAutoAccepts(s: State, caller: Username, target: Username)
    requires Valid(s)
    requires target in s.accounts && caller != target
    requires Request(target, caller) in s.pending
    ensures var t := SendRequestTo(s, caller, target);
      && t.outcome == AutoAdded && Status(t.outcome) == 201
      && target in FriendsOf(t.next.friends, caller) && caller in FriendsOf(t.next.friends, target)
      && (forall u :: u != caller && u != target ==> FriendsOf(t.next.friends, u) == FriendsOf(s.friends, u))
      && Request(target, caller) !in t.next.pending && Request(caller, target) !in t.next.pending
      && (forall r :: r in t.next.pending <==> r in s.pending && r != Request(target, caller))
      && t.next.accounts == s.accounts
  {
    assert Flip(Request(target, caller)) !in s.pending;
    RemoveFirstMembers(s.pending, Request(target, caller));
  }

  /**
   * An existing caller -> target request is reported with status 200 and the
   * store is left alone; this check comes before the reverse-request check.
   */
  lemma SendAlreadyExists(s: State, caller: Username, target: Username)
    requires target in s.accounts && caller != target
    requires Request(caller, target) in s.pending
    ensures SendRequestTo(s, caller, target) == Step(AlreadyExists, s)
    ensures Status(AlreadyExists) == 200
  {
  }

  /**
   * The send handler never looks at the Friend table: with the same users and
   * requests, it answers the same whatever the friendships are. In particular a
   * request to an existing friend is not refused.
   */
  lemma SendIgnoresFriendships(s: State, s': State, caller: Username, target: Username)
    requires s.accounts == s'.accounts && s.pending == s'.pending
    ensures SendRequestTo(s, caller, target).outcome == SendRequestTo(s', caller, target).outcome
    ensures SendRequestTo(s, caller, target).next.pending == SendRequestTo(s', caller, target).next.pending
  {
  }

  /** Sending to an existing friend with no request between them creates a new pending request. */
  lemma SendToFriendCreatesRequest(s: State, caller: Username, target: Username)
    requires Valid(s) && caller in s.accounts
    requires target in FriendsOf(s.friends, caller)
    requires Request(caller, target) !in s.pending && Request(target, caller) !in s.pending
    ensures SendRequestTo(s, caller, target).outcome == Sent
    ensures Request(caller, target) in SendRequestTo(s, caller, target).next.pending
  {
    assert target in s.accounts;
    assert caller != target;
  }

  /**
   * Accepting succeeds exactly when the sender has a pending request to the
   * caller; otherwise the answer is a 400 and nothing changes.
   */
  lemma AcceptOutcome(s: State, caller: Username, sender: Username)
    requires Valid(s)
    ensures var t := AcceptRequestFrom(s, caller, sender);
      && (t.outcome == Accepted <==> Request(sender, caller) in s.pending)
      && (sender in s.accounts && Request(sender, caller) !in s.pending ==> t.outcome == NotAccepted)
      && (t.outcome != Accepted ==> t.next == s && Status(t.outcome) == 400)
  {
  }

  /**
   * Accepting a pending request deletes it from the table and makes the two
   * users friends both ways, touching no other user's peers.
   */
  lemma AcceptBefriends(s: State, caller: Username, sender: Username)
    requires Unique(s.pending) && sender in s.accounts && Request(sender, caller) in s.pending
    ensures var t := AcceptRequestFrom(s, caller, sender);
      && t.outcome == Accepted && Status(t.outcome) == 201
      && sender in FriendsOf(t.next.friends, caller) && caller in FriendsOf(t.next.friends, sender)
      && (forall u :: u != caller && u != sender ==> FriendsOf(t.next.friends, u) == FriendsOf(s.friends, u))
      && (forall r :: r in t.next.pending <==> r in s.pending && r != Request(sender, caller))
  {
    RemoveFirstMembers(s.pending, Request(sender, caller));
  }

  /** The accepted request also leaves the caller's received list and the sender's sent list, in order. */
  lemma AcceptUpdatesLists(s: State, caller: Username, sender: Username)
    requires sender in s.accounts && Request(sender, caller) in s.pending
    ensures var t := AcceptRequestFrom(s, caller, sender);
      && ReceivedBy(t.next.pending, caller) == RemoveFirst(ReceivedBy(s.pending, caller), Request(sender, caller))
      && SentBy(t.next.pending, sender) == RemoveFirst(SentBy(s.pending, sender), Request(sender, caller))
  {
    var req := Request(sender, caller);
    ReceivedByRemoveFirst(s.pending, req, caller);
    SentByRemoveFirst(s.pending, req, sender);
  }

  /**
   * Rejecting succeeds exactly when the sender has a pending request to the
   * caller, and never touches the Friend table; otherwise the answer is a 400
   * and nothing changes.
   */
  lemma RejectOutcome(s: State, caller: Username, sender: Username)
    requires Valid(s)
    ensures var t := RejectRequestFrom(s, caller, sender);
      && (t.outcome == Rejected <==> Request(sender, caller) in s.pending)
      && (sender in s.accounts && Request(sender, caller) !in s.pending ==> t.outcome == NotRejected)
      && t.next.friends == s.friends && t.next.accounts == s.accounts
      && (t.outcome != Rejected ==> t.next == s && Status(t.outcome) == 400)
  {
  }

  /** Rejecting a pending request deletes exactly that request. */
  lemma RejectDeletesRequest(s: State, caller: Username, sender: Username)
    requires Unique(s.pending) && sender in s.accounts && Request(sender, caller) in s.pending
    ensures var t := RejectRequestFrom(s, caller, sender);
      && t.outcome == Rejected && Status(t.outcome) == 201
      && (forall r :: r in t.next.pending <==> r in s.pending && r != Request(sender, caller))
  {
    RemoveFirstMembers(s.pending, Request(sender, caller));
  }

  /** The rejected request also leaves the caller's received list and the sender's sent list, in order. */
  lemma RejectUpdatesLists(s: State, caller: Username, sender: Username)
    requires sender in s.accounts && Request(sender, caller) in s.pending
    ensures var t := RejectRequestFrom(s, caller, sender);
      && ReceivedBy(t.next.pending, caller) == RemoveFirst(ReceivedBy(s.pending, caller), Request(sender, caller))
      && SentBy(t.next.pending, sender) == RemoveFirst(SentBy(s.pending, sender), Request(sender, caller))
  {
    var req := Request(sender, caller);
    ReceivedByRemoveFirst(s.pending, req, caller);
    SentByRemoveFirst(s.pending, req, sender);
  }

  /**
   * Deleting succeeds exactly when the target is another user in the caller's
   * Friend row; it then removes the edge from both sides, touches no other
   * user's peers and no request.
   */
  lemma DeleteOutcome(s: State, caller: Username, target: Username)
    requires Valid(s)
    ensures var t := DeleteFriend(s, caller, target);
      && (t.outcome == Deleted <==> target != caller && target in FriendsOf(s.friends, caller))
      && (target in s.accounts && target != caller && target !in FriendsOf(s.friends, caller) ==> t.outcome == NotFriend)
      && t.next.pending == s.pending && t.next.accounts == s.accounts
      && (t.outcome == Deleted ==>
            && FriendsOf(t.next.friends, caller) == FriendsOf(s.friends, caller) - {target}
            && FriendsOf(t.next.friends, target) == FriendsOf(s.friends, target) - {caller}
            && (forall u :: u != caller && u != target ==> FriendsOf(t.next.friends, u) == FriendsOf(s.friends, u)))
      && (t.outcome != Deleted ==> t.next == s && Status(t.outcome) == 400)
  {
  }

  // ---------------------------------------------------------------------------
  // Status codes

  // Status 201 is answered exactly when the handler changed the store; 200 and
  // 400 leave it as it was.

  lemma SendStatusTellsChange(s: State, caller: Username, target: Username)
    ensures var t := SendRequestTo(s, caller, target); Status(t.outcome) == 201 <==> t.next != s
  {
    var t := SendRequestTo(s, caller, target);
    if t.outcome == Sent {
      assert |t.next.pending| == |s.pending| + 1;
    }
  }

  lemma AcceptStatusTellsChange(s: State, caller: Username, sender: Username)
    ensures var t := AcceptRequestFrom(s, caller, sender); Status(t.outcome) == 201 <==> t.next != s
  {
  }

  lemma RejectStatusTellsChange(s: State, caller: Username, sender: Username)
    ensures var t := RejectRequestFrom(s, caller, sender); Status(t.outcome) == 201 <==> t.next != s
  {
  }

  lemma DeleteStatusTellsChange(s: State, caller: Username, target: Username)
    ensures var t := DeleteFriend(s, caller, target); Status(t.outcome) == 201 <==> t.next != s
  {
    var t := DeleteFriend(s, caller, target);
    if t.outcome == Deleted {
      assert target !in FriendsOf(t.next.friends, caller);
    }
  }

  // ---------------------------------------------------------------------------
  // Scenarios

  /**
   * A asks B, then B asks A: the second request auto-resolves into a
   * friendship, no request is left between them, and the request table is
   * exactly what it was before A asked.
   */
  lemma MutualRequestsBecomeFriends(s: State, a: Username, b: Username)
    requires Valid(s) && a in s.accounts && b in s.accounts && a != b
    requires Request(a, b) !in s.pending && Request(b, a) !in s.pending
    ensures var first := SendRequestTo(s, a, b);
      var second := SendRequestTo(first.next, b, a);
      && first.outcome == Sent && second.outcome == AutoAdded
      && b in FriendsOf(second.next.friends, a) && a in FriendsOf(second.next.friends, b)
      && second.next.pending == s.pending
      && SentBy(second.next.pending, a) == SentBy(s.pending, a)
      && second.next == s.(friends := Accept(s.friends, Request(a, b)))
  {
    RemoveFirstAppended(s.pending, Request(a, b));
  }

  /**
   * After a friend is deleted, and provided no request is left between the two,
   * neither lists the other and a new request to them is created.
   */
  lemma ResendAfterDelete(s: State, caller: Username, target: Username)
    requires Valid(s) && caller in s.accounts
    requires DeleteFriend(s, caller, target).outcome == Deleted
    requires Request(caller, target) !in s.pending && Request(target, caller) !in s.pending
    ensures var after := DeleteFriend(s, caller, target).next;
      && target !in FriendsOf(after.friends, caller) && caller !in FriendsOf(after.friends, target)
      && SendRequestTo(after, caller, target).outcome == Sent
  {
  }

  /**
   * Deleting a friend leaves any request between the two in place. If the
   * caller had sent one to the friend (send does not refuse a friend), then
   * after the delete a resend answers AlreadyExists and changes nothing, while
   * a send from the former friend answers AutoAdded and makes them friends
   * again at once.
   */
  lemma ResidualRequestAfterDelete(s: State, caller: Username, target: Username)
    requires Valid(s) && caller in s.accounts
    requires target in FriendsOf(s.friends, caller)
    requires Request(caller, target) !in s.pending && Request(target, caller) !in s.pending
    ensures var sent := SendRequestTo(s, caller, target);
      var deleted := DeleteFriend(sent.next, caller, target);
      && sent.outcome == Sent && deleted.outcome == Deleted
      && Request(caller, target) in deleted.next.pending
      && SendRequestTo(deleted.next, caller, target) == Step(AlreadyExists, deleted.next)
      && SendRequestTo(deleted.next, target, caller).outcome == AutoAdded
      && caller in FriendsOf(SendRequestTo(deleted.next, target, caller).next.friends, target)
      && target in FriendsOf(SendRequestTo(deleted.next, target, caller).next.friends, caller)
  {
    assert target in s.accounts && target != caller;
  }
}
