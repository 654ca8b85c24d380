/**
 * The store as the handlers use it: the User, FriendRequest and Friend tables
 * updated in place. Each method is proved to compute the transition of the
 * same name in Views (or Serializers, Models); each handler method also keeps
 * the store invariants. The properties of those transitions are proved there.
 */
module Store {
  import opened Models
  import Serializers
  import Views

  class FriendStore {
    var accounts: map<Username, Account>
    var pending: seq<Request>
    var friends: FriendMap

    /** The tables as a value. */
    function Snapshot(): State
      reads this
    {
      State(accounts, pending, friends)
    }

    ghost predicate Valid()
      reads this
    {
      Models.Valid(Snapshot())
    }

    /** An empty database. */
    constructor ()
      ensures Valid()
      ensures accounts == map[] && pending == [] && friends == map[]
    {
      accounts, pending, friends := map[], [], map[];
    }

    // -------------------------------------------------------------------------
    // Model methods

    /** FriendRequest.accept: get-or-create each side's Friend row and add the other. */
    method Accept(r: Request)
      modifies this
      ensures friends == Models.Accept(old(friends), r)
      ensures accounts == old(accounts) && pending == old(pending)
    {
      var fromRow := FriendsOf(friends, r.from);
      friends := friends[r.from := fromRow + {r.to}];
      var toRow := FriendsOf(friends, r.to);
      friends := friends[r.to := toRow + {r.from}];
    }

    /** Friend.lose_friend: get-or-create the owner's Friend row and remove the peer. */
    method LoseFriend(owner: Username, peer: Username)
      modifies this
      ensures friends == Models.LoseFriend(old(friends), owner, peer)
      ensures accounts == old(accounts) && pending == old(pending)
    {
      var row := FriendsOf(friends, owner);
      friends := friends[owner := row - {peer}];
    }

    // -------------------------------------------------------------------------
    // Handlers

    /** UserRegister: validate through the user serializer, create the user, attach its token. */
    method Register(username: Option<string>, email: Option<string>, password: Option<string>, key: TokenKey)
      returns (r: Serializers.Registration)
      requires Valid()
      modifies this
      ensures Valid()
      ensures Serializers.Registered(r, Snapshot()) == Serializers.Register(old(Snapshot()), username, email, password, key)
    {
      var errs := Serializers.RegistrationErrors(accounts, username, email, password);
      if errs == {} {
        accounts := accounts[username.value := Account(email.value, Some(key))];
        r := Serializers.Created(username.value, email.value, key);
      } else {
        r := Serializers.Invalid(errs);
      }
      Serializers.RegisterPreservesValid(old(Snapshot()), username, email, password, key);
    }

    /** SendRequestToUser.post */
    method SendRequestTo(caller: Username, username: Username) returns (o: Views.Outcome)
      requires Valid() && caller in accounts
      modifies this
      ensures Valid() && caller in accounts
      ensures Views.Step(o, Snapshot()) == Views.SendRequestTo(old(Snapshot()), caller, username)
    {
      if username !in accounts {
        o := Views.NotFound;
      } else {
        var forward := Request(caller, username) in pending;
        if caller == username {
          o := Views.Self;
        } else if !forward {
          var reverse := Request(username, caller);
          if reverse in pending {
            Accept(reverse);
            pending := RemoveFirst(pending, reverse);
            o := Views.AutoAdded;
          } else {
            pending := pending + [Request(caller, username)];
            o := Views.Sent;
          }
        } else {
          o := Views.AlreadyExists;
        }
      }
      Views.SendPreservesValid(old(Snapshot()), caller, username);
    }

    /** AcceptRequestFromUser.post */
    method AcceptRequestFrom(caller: Username, username: Username) returns (o: Views.Outcome)
      requires Valid() && caller in accounts
      modifies this
      ensures Valid() && caller in accounts
      ensures Views.Step(o, Snapshot()) == Views.AcceptRequestFrom(old(Snapshot()), caller, username)
    {
      if username !in accounts {
        o := Views.NotFound;
      } else {
        var req := Request(username, caller);
        if req in pending {
          Accept(req);
          pending := RemoveFirst(pending, req);
          o := Views.Accepted;
        } else {
          o := Views.NotAccepted;
        }
      }
      Views.AcceptPreservesValid(old(Snapshot()), caller, username);
    }

    /** RejectRequestFromUser.post */
    method RejectRequestFrom(caller: Username, username: Username) returns (o: Views.Outcome)
      requires Valid() && caller in accounts
      modifies this
      ensures Valid() && caller in accounts
      ensures Views.Step(o, Snapshot()) == Views.RejectRequestFrom(old(Snapshot()), caller, username)
    {
      if username !in accounts {
        o := Views.NotFound;
      } else {
        var req := Request(username, caller);
        if req in pending {
          pending := RemoveFirst(pending, req);
          o := Views.Rejected;
        } else {
          o := Views.NotRejected;
        }
      }
      Views.RejectPreservesValid(old(Snapshot()), caller, username);
    }

    /** DeleteFriend.post */
    method DeleteFriend(caller: Username, username: Username) returns (o: Views.Outcome)
      requires Valid() && caller in accounts
      modifies this
      ensures Valid() && caller in accounts
      ensures Views.Step(o, Snapshot()) == Views.DeleteFriend(old(Snapshot()), caller, username)
    {
      if username !in accounts {
        o := Views.NotFound;
      } else if username == caller {
        o := Views.Self;
      } else if username !in FriendsOf(friends, caller) {
        o := Views.NotFriend;
      } else {
        LoseFriend(caller, username);
        LoseFriend(username, caller);
        o := Views.Deleted;
      }
      Views.DeletePreservesValid(old(Snapshot()), caller, username);
    }
  }

  /**
   * Two users register; the first asks the second, the second asks back, and
   * the two end up friends with no request left between them.
   */
  method AutoAddScenario() returns (sent: Views.Outcome, added: Views.Outcome, left: seq<Request>, mutual: bool)
    ensures sent == Views.Sent && added == Views.AutoAdded
    ensures left == [] && mutual
  {
    var store := new FriendStore();
    var alice, bob := "testuser", "testuser2";
    var r1 := store.Register(Some(alice), Some("test@mail.ru"), Some("password123"), "k1");
    assert r1.Created?;
    var r2 := store.Register(Some(bob), Some("newuser@example.com"), Some("newpassword123"), "k2");
    assert r2.Created?;
    sent := store.SendRequestTo(alice, bob);
    added := store.SendRequestTo(bob, alice);
    left := store.pending;
    mutual := bob in FriendsOf(store.friends, alice) && alice in FriendsOf(store.friends, bob);
  }
}
