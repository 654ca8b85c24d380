/**
 * The tables of the friends app and the two model methods that mutate them:
 * `FriendRequest.accept` (a symmetric add into the Friend table) and
 * `Friend.lose_friend` (a one-directional remove).
 *
 * The ORM is abstracted as a value `State`:
 *  - `accounts`: the User table, keyed by username (usernames are unique);
 *  - `pending`:  the FriendRequest table, one row per request, in table order
 *                (the creation timestamp is dropped);
 *  - `friends`:  the Friend table, owner -> set of peers; an owner's key appears
 *                only once a get_or_create has run for that owner.
 */
module Models {

  type Username = string
  type Email = string
  type TokenKey = string

  datatype Option<T> = None | Some(value: T)

  /** A FriendRequest row: a pending proposal from `from` to `to`. */
  datatype Request = Request(from: Username, to: Username)

  /** The request in the opposite direction. */
  function Flip(r: Request): Request {
    Request(r.to, r.from)
  }

  /** The fields of a User row the app reads; `token` is its authtoken row, if any. */
  datatype Account = Account(email: Email, token: Option<TokenKey>)

  /** The Friend table: the peers of each owner that has a row. */
  type FriendMap = map<Username, set<Username>>

  datatype State = State(accounts: map<Username, Account>, pending: seq<Request>, friends: FriendMap)

  /** The peers in u's Friend row; no row reads as no peers. */
  function FriendsOf(f: FriendMap, u: Username): set<Username> {
    if u in f then f[u] else {}
  }

  // ---------------------------------------------------------------------------
  // Invariants of the store

  /** Friendship is mutual: b is among a's peers exactly when a is among b's. */
  ghost predicate Symmetric(f: FriendMap) {
    forall a, b :: b in FriendsOf(f, a) ==> a in FriendsOf(f, b)
  }

  /** Nobody is their own friend. */
  ghost predicate Irreflexive(f: FriendMap) {
    forall u :: u !in FriendsOf(f, u)
  }

  /** Every ordered pair has at most one FriendRequest row. */
  ghost predicate Unique(rows: seq<Request>) {
    forall r :: multiset(rows)[r] <= 1
  }

  /** Nobody has a pending request to themselves. */
  ghost predicate NoSelfRequests(rows: seq<Request>) {
    forall r :: r in rows ==> r.from != r.to
  }

  /** Two users never both have a pending request to each other. */
  ghost predicate NoCrossedRequests(rows: seq<Request>) {
    forall r :: r in rows ==> Flip(r) !in rows
  }

  /** No two users share an email address. */
  ghost predicate EmailsUnique(accounts: map<Username, Account>) {
    forall a, b :: a in accounts && b in accounts && a != b ==> accounts[a].email != accounts[b].email
  }

  /** Foreign keys: requests and Friend rows only mention existing users. */
  ghost predicate ReferencesExist(s: State) {
    && (forall r :: r in s.pending ==> r.from in s.accounts && r.to in s.accounts)
    && (forall u :: u in s.friends ==> u in s.accounts && s.friends[u] <= s.accounts.Keys)
  }

  ghost predicate Valid(s: State) {
    && ReferencesExist(s)
    && EmailsUnique(s.accounts)
    && NoSelfRequests(s.pending)
    && Unique(s.pending)
    && NoCrossedRequests(s.pending)
    && Symmetric(s.friends)
    && Irreflexive(s.friends)
  }

  // ---------------------------------------------------------------------------
  // FriendRequest.accept

  /**
   * `accept` on the request `from -> to`: get-or-create from's row and add `to`,
   * then get-or-create to's row and add `from`. It only adds; the request row is
   * left in place.
   */
  function Accept(f: FriendMap, r: Request): (g: FriendMap)
    ensures g.Keys == f.Keys + {r.from, r.to}
    ensures r.to in FriendsOf(g, r.from) && r.from in FriendsOf(g, r.to)
    ensures forall u :: FriendsOf(g, u) == FriendsOf(f, u) + (if u == r.from then {r.to} else {}) + (if u == r.to then {r.from} else {})
    ensures Symmetric(f) ==> Symmetric(g)
  {
    var f1 := f[r.from := FriendsOf(f, r.from) + {r.to}];
    f1[r.to := FriendsOf(f1, r.to) + {r.from}]
  }

  /** The many-to-many field has set semantics: accepting between existing friends changes nothing. */
  lemma AcceptIdempotent(f: FriendMap, r: Request)
    requires r.to in FriendsOf(f, r.from) && r.from in FriendsOf(f, r.to)
    ensures Accept(f, r) == f
  {
    var g := Accept(f, r);
    assert g.Keys == f.Keys;
    forall u | u in g ensures g[u] == f[u] {
      assert FriendsOf(g, u) == FriendsOf(f, u);
    }
  }

  /** With no self-request, accepting keeps nobody their own friend. */
  lemma AcceptIrreflexive(f: FriendMap, r: Request)
    requires Irreflexive(f) && r.from != r.to
    ensures Irreflexive(Accept(f, r))
  {
    var g := Accept(f, r);
    forall u ensures u !in FriendsOf(g, u) {
      assert u !in FriendsOf(f, u);
    }
  }

  // ---------------------------------------------------------------------------
  // Friend.lose_friend

  /** `lose_friend(owner, peer)`: get-or-create owner's row and remove `peer` from it. */
  function LoseFriend(f: FriendMap, owner: Username, peer: Username): (g: FriendMap)
    ensures g.Keys == f.Keys + {owner}
    ensures peer !in FriendsOf(g, owner)
    ensures FriendsOf(g, owner) == FriendsOf(f, owner) - {peer}
    ensures forall u :: u != owner ==> FriendsOf(g, u) == FriendsOf(f, u)
  {
    f[owner := FriendsOf(f, owner) - {peer}]
  }

  /** Removing twice is removing once. */
  lemma LoseFriendIdempotent(f: FriendMap, owner: Username, peer: Username)
    ensures LoseFriend(LoseFriend(f, owner, peer), owner, peer) == LoseFriend(f, owner, peer)
  {
    var g := LoseFriend(f, owner, peer);
    var h := LoseFriend(g, owner, peer);
    assert h.Keys == g.Keys;
    forall u | u in h ensures h[u] == g[u] {
      assert FriendsOf(h, u) == FriendsOf(g, u);
    }
  }

  /** Removing a non-member changes no peer set; at most an empty row is created for the owner. */
  lemma LoseFriendNonMember(f: FriendMap, owner: Username, peer: Username)
    requires peer !in FriendsOf(f, owner)
    ensures forall u :: FriendsOf(LoseFriend(f, owner, peer), u) == FriendsOf(f, u)
    ensures owner in f ==> LoseFriend(f, owner, peer) == f
  {
    if owner in f {
      var g := LoseFriend(f, owner, peer);
      assert g.Keys == f.Keys;
      forall u | u in g ensures g[u] == f[u] {
        assert FriendsOf(g, u) == FriendsOf(f, u);
      }
    }
  }

  /** One call alone is one-directional: it breaks the symmetry of any mutual friendship. */
  lemma LoseFriendOneDirectional(f: FriendMap, a: Username, b: Username)
    requires Symmetric(f) && a != b && b in FriendsOf(f, a)
    ensures !Symmetric(LoseFriend(f, a, b))
  {
    var g := LoseFriend(f, a, b);
    assert a in FriendsOf(g, b) && b !in FriendsOf(g, a);
  }

  /** The paired calls of the delete handler remove the edge from both sides and keep symmetry. */
  lemma UnfriendSymmetric(f: FriendMap, a: Username, b: Username)
    requires Symmetric(f)
    ensures Symmetric(LoseFriend(LoseFriend(f, a, b), b, a))
  {
    var g := LoseFriend(LoseFriend(f, a, b), b, a);
    forall x, y | y in FriendsOf(g, x) ensures x in FriendsOf(g, y) {
      assert y in FriendsOf(f, x);
      assert x in FriendsOf(f, y);
    }
  }

  // ---------------------------------------------------------------------------
  // Deleting a FriendRequest row

  /**
   * `.first().delete()` on the rows equal to `r`: drops its first occurrence,
   * keeping the order of the rest (`RemoveFirstKeepsOrder`).
   */
  function RemoveFirst(rows: seq<Request>, r: Request): (out: seq<Request>)
    ensures multiset(out) == multiset(rows) - multiset{r}
    ensures r in rows ==> |out| == |rows| - 1
    ensures r !in rows ==> out == rows
  {
    if rows == [] then []
    else
      assert rows == [rows[0]] + rows[1..];
      if rows[0] == r then rows[1..]
      else [rows[0]] + RemoveFirst(rows[1..], r)
  }

  /** The position of the first row equal to `r`. */
  function FirstIndex(rows: seq<Request>, r: Request): (i: nat)
    requires r in rows
    ensures i < |rows| && rows[i] == r && r !in rows[..i]
  {
    assert rows == [rows[0]] + rows[1..];
    if rows[0] == r then 0
    else
      var j := FirstIndex(rows[1..], r);
      assert rows[..j + 1] == [rows[0]] + rows[1..][..j];
      j + 1
  }

  /** The deleted row is the first one equal to `r`; the rows before and after it keep their order. */
  lemma {:induction false} RemoveFirstKeepsOrder(rows: seq<Request>, r: Request)
    requires r in rows
    ensures RemoveFirst(rows, r) == rows[..FirstIndex(rows, r)] + rows[FirstIndex(rows, r) + 1..]
  {
    if rows[0] == r {
      assert rows[..0] == [];
    } else {
      var j := FirstIndex(rows[1..], r);
      RemoveFirstKeepsOrder(rows[1..], r);
      SkipAfterHead(rows, j);
    }
  }

  /** Skipping position `j` of the tail is skipping position `j + 1` of the whole list. */
  lemma SkipAfterHead(rows: seq<Request>, j: nat)
    requires j + 1 < |rows|
    ensures [rows[0]] + (rows[1..][..j] + rows[1..][j + 1..]) == rows[..j + 1] + rows[j + 2..]
  {
    assert rows[..j + 1] == [rows[0]] + rows[1..][..j];
  }

  /** In a table without duplicate rows, deleting `r` removes exactly the pair `r`. */
  lemma RemoveFirstMembers(rows: seq<Request>, r: Request)
    requires Unique(rows)
    ensures Unique(RemoveFirst(rows, r))
    ensures forall x :: x in RemoveFirst(rows, r) <==> x in rows && x != r
  {
    var out := RemoveFirst(rows, r);
    forall x ensures x in out <==> x in rows && x != r {
      assert x in out <==> x in multiset(out);
      assert x in rows <==> x in multiset(rows);
    }
  }

  /** Creating a row for a fresh pair and deleting it again restores the table. */
  lemma {:induction false} RemoveFirstAppended(rows: seq<Request>, r: Request)
    requires r !in rows
    ensures RemoveFirst(rows + [r], r) == rows
  {
    if rows != [] {
      assert (rows + [r])[1..] == rows[1..] + [r];
      RemoveFirstAppended(rows[1..], r);
    }
  }
}
