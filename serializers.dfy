/**
 * What the serializers of the friends app read from the store and write into it:
 * the profile aggregate (friends, requests sent, requests received, token) and
 * the registration rules of the user serializer (required fields, unused
 * username and email).
 */
module Serializers {
  import opened Models

  // ---------------------------------------------------------------------------
  // Profile projections

  /** The rows of the FriendRequest table sent by `u`, in table order. */
  function SentBy(rows: seq<Request>, u: Username): (out: seq<Request>)
    ensures multiset(out) <= multiset(rows)
  {
    if rows == [] then []
    else
      assert rows == [rows[0]] + rows[1..];
      (if rows[0].from == u then [rows[0]] else []) + SentBy(rows[1..], u)
  }

  /** The rows of the FriendRequest table addressed to `u`, in table order. */
  function ReceivedBy(rows: seq<Request>, u: Username): (out: seq<Request>)
    ensures multiset(out) <= multiset(rows)
  {
    if rows == [] then []
    else
      assert rows == [rows[0]] + rows[1..];
      (if rows[0].to == u then [rows[0]] else []) + ReceivedBy(rows[1..], u)
  }

  /** The list holds exactly the rows sent by `u`. */
  lemma {:induction false} SentByMembers(rows: seq<Request>, u: Username)
    ensures forall r :: r in SentBy(rows, u) <==> r in rows && r.from == u
  {
    if rows != [] {
      SentByMembers(rows[1..], u);
      assert rows == [rows[0]] + rows[1..];
    }
  }

  /** A new row shows up at the end of its sender's list. */
  lemma {:induction false} SentByAppend(rows: seq<Request>, r: Request, u: Username)
    ensures SentBy(rows + [r], u) == SentBy(rows, u) + (if r.from == u then [r] else [])
  {
    var last: seq<Request> := if r.from == u then [r] else [];
    if rows == [] {
      assert rows + [r] == [r];
      assert SentBy([r], u) == last + SentBy([r][1..], u);
      assert [r][1..] == [];
    } else {
      var x, longer := rows[0], rows + [r];
      var head: seq<Request> := if x.from == u then [x] else [];
      assert longer[0] == x && longer[1..] == rows[1..] + [r];
      assert SentBy(longer, u) == head + SentBy(rows[1..] + [r], u);
      SentByAppend(rows[1..], r, u);
      var mid := SentBy(rows[1..], u);
      assert SentBy(rows, u) == head + mid;
      ConcatAssociative(head, mid, last);
    }
  }

  /** The list holds exactly the rows addressed to `u`. */
  lemma {:induction false} ReceivedByMembers(rows: seq<Request>, u: Username)
    ensures forall r :: r in ReceivedBy(rows, u) <==> r in rows && r.to == u
  {
    if rows != [] {
      ReceivedByMembers(rows[1..], u);
      assert rows == [rows[0]] + rows[1..];
    }
  }

  /** A new row shows up at the end of its recipient's list. */
  lemma {:induction false} ReceivedByAppend(rows: seq<Request>, r: Request, u: Username)
    ensures ReceivedBy(rows + [r], u) == ReceivedBy(rows, u) + (if r.to == u then [r] else [])
  {
    var last: seq<Request> := if r.to == u then [r] else [];
    if rows == [] {
      assert rows + [r] == [r];
      assert ReceivedBy([r], u) == last + ReceivedBy([r][1..], u);
      assert [r][1..] == [];
    } else {
      var x, longer := rows[0], rows + [r];
      var head: seq<Request> := if x.to == u then [x] else [];
      assert longer[0] == x && longer[1..] == rows[1..] + [r];
      assert ReceivedBy(longer, u) == head + ReceivedBy(rows[1..] + [r], u);
      ReceivedByAppend(rows[1..], r, u);
      var mid := ReceivedBy(rows[1..], u);
      assert ReceivedBy(rows, u) == head + mid;
      ConcatAssociative(head, mid, last);
    }
  }

  /** Deleting a row deletes it from its sender's list and leaves every other list as it was. */
  lemma {:induction false} SentByRemoveFirst(rows: seq<Request>, r: Request, u: Username)
    ensures SentBy(RemoveFirst(rows, r), u) == RemoveFirst(SentBy(rows, u), r)
  {
    if rows != [] {
      var x, tl := rows[0], SentBy(rows[1..], u);
      if x.from == u {
        assert SentBy(rows, u) == [x] + tl;
        assert ([x] + tl)[0] == x && ([x] + tl)[1..] == tl;
      } else {
        assert SentBy(rows, u) == tl;
      }
      if x == r {
        assert RemoveFirst(rows, r) == rows[1..];
        if x.from != u {
          SentByMembers(rows[1..], u);
          assert r !in tl;
        }
      } else {
        var rest := RemoveFirst(rows[1..], r);
        assert RemoveFirst(rows, r) == [x] + rest;
        assert ([x] + rest)[0] == x && ([x] + rest)[1..] == rest;
        SentByRemoveFirst(rows[1..], r, u);
        if x.from == u {
          assert SentBy([x] + rest, u) == [x] + SentBy(rest, u);
        } else {
          assert SentBy([x] + rest, u) == SentBy(rest, u);
        }
      }
    }
  }

  /** Deleting a row deletes it from its recipient's list and leaves every other list as it was. */
  lemma {:induction false} ReceivedByRemoveFirst(rows: seq<Request>, r: Request, u: Username)
    ensures ReceivedBy(RemoveFirst(rows, r), u) == RemoveFirst(ReceivedBy(rows, u), r)
  {
    if rows != [] {
      var x, tl := rows[0], ReceivedBy(rows[1..], u);
      if x.to == u {
        assert ReceivedBy(rows, u) == [x] + tl;
        assert ([x] + tl)[0] == x && ([x] + tl)[1..] == tl;
      } else {
        assert ReceivedBy(rows, u) == tl;
      }
      if x == r {
        assert RemoveFirst(rows, r) == rows[1..];
        if x.to != u {
          ReceivedByMembers(rows[1..], u);
          assert r !in tl;
        }
      } else {
        var rest := RemoveFirst(rows[1..], r);
        assert RemoveFirst(rows, r) == [x] + rest;
        assert ([x] + rest)[0] == x && ([x] + rest)[1..] == rest;
        ReceivedByRemoveFirst(rows[1..], r, u);
        if x.to == u {
          assert ReceivedBy([x] + rest, u) == [x] + ReceivedBy(rest, u);
        } else {
          assert ReceivedBy([x] + rest, u) == ReceivedBy(rest, u);
        }
      }
    }
  }

  /** A user with no pending rows out has an empty sent list. */
  lemma {:induction false} SentByNone(rows: seq<Request>, u: Username)
    requires forall r :: r in rows ==> r.from != u
    ensures SentBy(rows, u) == []
  {
    if rows != [] {
      SentByNone(rows[1..], u);
    }
  }

  /** A user with no pending rows in has an empty received list. */
  lemma {:induction false} ReceivedByNone(rows: seq<Request>, u: Username)
    requires forall r :: r in rows ==> r.to != u
    ensures ReceivedBy(rows, u) == []
  {
    if rows != [] {
      ReceivedByNone(rows[1..], u);
    }
  }

  /** Concatenation of request lists regroups freely; used to unfold a list filter over an append. */
  lemma ConcatAssociative(a: seq<Request>, b: seq<Request>, c: seq<Request>)
    ensures a + (b + c) == (a + b) + c
  {
  }

  /** The profile aggregate shown to an authenticated user. */
  datatype Profile = Profile(
    username: Username,
    email: Email,
    friends: set<Username>,
    sent: seq<Request>,
    received: seq<Request>,
    token: Option<TokenKey>)

  /**
   * The profile of `u`: its peers (none when it has no Friend row), the
   * requests it sent and received, and its token, which is None rather than an
   * error when the user has none.
   */
  function ProfileOf(s: State, u: Username): (p: Profile)
    requires u in s.accounts
    ensures p.username == u && p.email == s.accounts[u].email
    ensures p.token == s.accounts[u].token
    ensures forall v :: v in p.friends <==> u in s.friends && v in s.friends[u]
    ensures forall r :: r in p.sent <==> r in s.pending && r.from == u
    ensures forall r :: r in p.received <==> r in s.pending && r.to == u
    ensures Valid(s) ==> u !in p.friends && Unique(p.sent) && Unique(p.received)
  {
    SentByMembers(s.pending, u);
    ReceivedByMembers(s.pending, u);
    Profile(u, s.accounts[u].email, FriendsOf(s.friends, u),
            SentBy(s.pending, u), ReceivedBy(s.pending, u), s.accounts[u].token)
  }

  // ---------------------------------------------------------------------------
  // Registration

  datatype Field = UsernameField | EmailField | PasswordField

  /** A field-level validation error of the user serializer. */
  datatype FieldError = Missing(field: Field) | AlreadyUsed(field: Field)

  /** A required field that is absent, null or blank. */
  predicate Blank(v: Option<string>) {
    v.None? || v.value == ""
  }

  predicate EmailInUse(accounts: map<Username, Account>, e: Email) {
    exists u :: u in accounts && accounts[u].email == e
  }

  /**
   * Every field error the serializer reports. Uniqueness is only checked on a
   * field that was given.
   */
  function RegistrationErrors(accounts: map<Username, Account>, username: Option<string>,
                              email: Option<string>, password: Option<string>): (errs: set<FieldError>)
    ensures errs == {} <==>
      && !Blank(username) && username.value !in accounts
      && !Blank(email) && !EmailInUse(accounts, email.value)
      && !Blank(password)
    ensures Missing(UsernameField) in errs <==> Blank(username)
    ensures Missing(EmailField) in errs <==> Blank(email)
    ensures Missing(PasswordField) in errs <==> Blank(password)
    ensures AlreadyUsed(UsernameField) in errs <==> !Blank(username) && username.value in accounts
    ensures AlreadyUsed(EmailField) in errs <==> !Blank(email) && EmailInUse(accounts, email.value)
  {
    (if Blank(username) then {Missing(UsernameField)}
     else if username.value in accounts then {AlreadyUsed(UsernameField)} else {})
    + (if Blank(email) then {Missing(EmailField)}
       else if EmailInUse(accounts, email.value) then {AlreadyUsed(EmailField)} else {})
    + (if Blank(password) then {Missing(PasswordField)} else {})
  }

  datatype Registration = Created(username: Username, email: Email, token: TokenKey) | Invalid(errors: set<FieldError>)

  datatype Registered = Registered(result: Registration, next: State)

  /**
   * The register endpoint: validate, create the user with exactly the given
   * username and email, and attach the token whose key is `key`.
   */
  function Register(s: State, username: Option<string>, email: Option<string>,
                    password: Option<string>, key: TokenKey): (r: Registered)
    ensures r.next.pending == s.pending && r.next.friends == s.friends
    ensures r.result.Invalid? ==> r.next == s
    ensures r.result.Created? ==> r.next.accounts.Keys == s.accounts.Keys + {r.result.username}
  {
    var errs := RegistrationErrors(s.accounts, username, email, password);
    if errs != {} then Registered(Invalid(errs), s)
    else
      Registered(Created(username.value, email.value, key),
                 s.(accounts := s.accounts[username.value := Account(email.value, Some(key))]))
  }

  /** Status code of the register endpoint. */
  function RegistrationStatus(r: Registration): (code: int)
    ensures code in {201, 400}
    ensures code == 201 <==> r.Created?
  {
    if r.Created? then 201 else 400
  }

  /**
   * A registration succeeds exactly when the fields are valid; it then adds one
   * user carrying the given username, email and a token, and changes nothing
   * else. A refused registration leaves the store as it was.
   */
  lemma RegisterOutcome(s: State, username: Option<string>, email: Option<string>,
                        password: Option<string>, key: TokenKey)
    requires Valid(s)
    ensures var r := Register(s, username, email, password, key);
      && (r.result.Created? <==> RegistrationErrors(s.accounts, username, email, password) == {})
      && (RegistrationStatus(r.result) == 201 <==> r.result.Created?)
      && (r.result.Invalid? ==> r.next == s && r.result.errors != {})
      && (r.result.Created? ==>
            && r.result.username == username.value && r.result.email == email.value
            && r.next.accounts.Keys == s.accounts.Keys + {username.value}
            && username.value !in s.accounts
            && ProfileOf(r.next, username.value).token == Some(key)
            && ProfileOf(r.next, username.value).email == email.value
            && ProfileOf(r.next, username.value).friends == {}
            && ProfileOf(r.next, username.value).sent == [] && ProfileOf(r.next, username.value).received == []
            && r.next.pending == s.pending && r.next.friends == s.friends
            && (forall v :: v in s.accounts ==> r.next.accounts[v] == s.accounts[v]))
  {
    var r := Register(s, username, email, password, key);
    if r.result.Created? {
      var u := username.value;
      var p := ProfileOf(r.next, u);
      assert u !in s.friends;
      SentByNone(s.pending, u);
      ReceivedByNone(s.pending, u);
    }
  }

  /** Registration keeps every store invariant (in particular, emails stay unique). */
  lemma RegisterPreservesValid(s: State, username: Option<string>, email: Option<string>,
                               password: Option<string>, key: TokenKey)
    requires Valid(s)
    ensures Valid(Register(s, username, email, password, key).next)
  {
    var r := Register(s, username, email, password, key);
    if r.result.Created? {
      var t := r.next;
      forall a, b | a in t.accounts && b in t.accounts && a != b
        ensures t.accounts[a].email != t.accounts[b].email
      {
        if a == username.value {
          assert !EmailInUse(s.accounts, email.value);
        } else if b == username.value {
          assert !EmailInUse(s.accounts, email.value);
        }
      }
    }
  }
}
