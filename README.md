# Friendship state machine of drf_friends, in Dafny

This project models the friendship workflow of a small Django REST API. Users register and list the other users. They send, accept and reject friend requests, and they delete friends. When a user sends a request to someone who has already asked them, the two simply become friends.

The database is abstracted as one value `Models.State`, which holds three tables:

- `accounts` is the User table, keyed by username. `str(User)` is the username, so a username identifies a user. Each row holds its email and its authentication token, if one exists.
- `pending` is the FriendRequest table: one `Request(from, to)` row per request, in table order. The timestamp is dropped.
- `friends` is the Friend table: a map from an owner to its set of peers. An owner's key only appears once a `get_or_create` has run for it. A missing key reads as no peers (`FriendsOf`).

The project has four modules:

- `Models` (models.dfy): the tables and the store invariants (`Valid`), which are:
  - friendship is symmetric and irreflexive;
  - nobody has a request to themselves;
  - there is at most one row per ordered pair;
  - no two users have requests to each other;
  - emails are unique;
  - rows only mention existing users.

  It also holds `FriendRequest.accept` (`Accept`), `Friend.lose_friend` (`LoseFriend`) and the deletion of a request row (`RemoveFirst`, which is `.first().delete()`).
- `Serializers` (serializers.dfy): the profile projections and the registration rules of the user serializer.
- `Views` (views.dfy): each handler as a pure transition `State -> Step(outcome, next)`. The distinct outcomes (`NotFound`, `Self`, `Sent`, `AutoAdded`, `AlreadyExists`, `Accepted`, `NotAccepted`, `Rejected`, `NotRejected`, `NotFriend`, `Deleted`) each map to the handler's HTTP status (`Status`). Its lemmas are the properties of those transitions.
- `Store` (store.dfy): the class `FriendStore`, which holds the three tables as fields that its methods update in place. Each handler method is proved to compute the transition of the same name and to keep `Valid()`. The two model methods `Accept` and `LoseFriend` are proved equal to `Models.Accept` and `Models.LoseFriend`. They do not promise `Valid()`, because one `LoseFriend` call alone breaks symmetry. `AutoAddScenario` replays two registrations and two crossed requests.

The model follows the code as written. Three of its behaviours are worth knowing:

- **No already-friends check.** `SendRequestToUser.post` does not refuse a request to an existing friend. The test at drf/friends/tests.py:310-313 expects the answer "already your friend" and no new request. The model follows the code: `Views.SendToFriendCreatesRequest` shows that such a send creates a new pending request, and `Views.SendIgnoresFriendships` shows that the send handler never reads the Friend table.
- **Deleting a friend keeps the requests between the two.** Delete touches only the Friend table (drf/friends/views.py:222-224), while send accepts a request to a friend. So a request sent to a friend survives a later delete. A resend then answers AlreadyExists, and a send the other way makes the two friends again at once (`Views.ResidualRequestAfterDelete`).
- **`accept` keeps the request row.** `FriendRequest.accept` only adds the edge. The handlers delete the row afterwards (drf/friends/views.py:115, 152).

## Model

| member | source | states |
|---|---|---|
| Models.Accept | drf/friends/models.py:23-33 | accept adds `to` to from's peers and `from` to to's peers, creating missing rows; every other user's peers are unchanged; nothing is removed; a symmetric table stays symmetric |
| Models.AcceptIdempotent | drf/friends/models.py:29-32 | accepting between users who are already friends both ways leaves the Friend table identical (the many-to-many field has set semantics) |
| Models.AcceptIrreflexive | drf/friends/models.py:29-32 | when `from` differs from `to`, accepting makes nobody their own friend |
| Models.LoseFriend | drf/friends/models.py:51-61 | lose_friend removes the peer from the owner's row only, creating the owner's row if missing; every other user's peers are unchanged |
| Models.LoseFriendIdempotent | drf/friends/models.py:60-61 | calling lose_friend twice is the same as calling it once |
| Models.LoseFriendNonMember | drf/friends/models.py:60-61 | removing a non-member changes no peer set, and changes the table not at all when the owner already has a row |
| Models.LoseFriendOneDirectional | drf/friends/models.py:60-61 | in any symmetric Friend table, one call alone between two friends leaves the table asymmetric |
| Models.UnfriendSymmetric | drf/friends/views.py:222-224 | the paired lose_friend calls of the delete handler keep the Friend table symmetric |
| Models.RemoveFirst | drf/friends/views.py:149-152 | deleting the first row equal to `r` removes one copy of `r` from the table's multiset (one row fewer when present, the table unchanged when absent) |
| Models.FirstIndex | drf/friends/views.py:149-152 | the position found is a row equal to `r` with no earlier such row: the row `.first()` picks |
| Models.RemoveFirstKeepsOrder | drf/friends/views.py:149-152 | deleting removes the first row equal to `r` and keeps the rows before and after it in their order |
| Models.RemoveFirstMembers | drf/friends/views.py:181-183 | in a table without duplicate rows, deleting `r` leaves exactly the other requests and keeps the table free of duplicates |
| Models.RemoveFirstAppended | drf/friends/views.py:112-118 | creating a row for a fresh pair and then deleting it restores the table exactly |
| Serializers.SentBy | drf/friends/serializers.py:133-138 | the sent list is a sub-multiset of the FriendRequest table |
| Serializers.ReceivedBy | drf/friends/serializers.py:140-145 | the received list is a sub-multiset of the FriendRequest table |
| Serializers.SentByMembers | drf/friends/serializers.py:137-138 | the sent list holds exactly the rows whose from_user is `u` |
| Serializers.ReceivedByMembers | drf/friends/serializers.py:144-145 | the received list holds exactly the rows whose to_user is `u` |
| Serializers.SentByAppend | drf/friends/serializers.py:137-138 | a newly created request appears at the end of its sender's list and of no other sent list |
| Serializers.ReceivedByAppend | drf/friends/serializers.py:144-145 | a newly created request appears at the end of its recipient's list and of no other received list |
| Serializers.SentByRemoveFirst | drf/friends/serializers.py:137-138 | deleting a row deletes it from its sender's list and leaves every other sent list as it was |
| Serializers.ReceivedByRemoveFirst | drf/friends/serializers.py:144-145 | deleting a row deletes it from its recipient's list and leaves every other received list as it was |
| Serializers.SentByNone | drf/friends/serializers.py:137-138 | a user with no outgoing request has an empty sent list |
| Serializers.ReceivedByNone | drf/friends/serializers.py:144-145 | a user with no incoming request has an empty received list |
| Serializers.ProfileOf | drf/friends/serializers.py:126-155 | the profile has the user's username and email; friends are exactly the peers in its Friend row, or none when it has no row; sent and received are exactly the user's outgoing and incoming requests; the token is exactly the user's token key, and None when the user has none, not an error; in a valid store the user is not its own friend and neither list repeats a request |
| Serializers.RegistrationErrors | drf/friends/serializers.py:39-50 | no error exactly when username, email and password are all given and non-blank, the username is unused and the email is unused; each error names the blank or already-used field |
| Serializers.Register | drf/friends/views.py:20-33 | registration never touches the request or Friend table; a refusal leaves the store as it was; a success adds exactly the new username to the users |
| Serializers.RegistrationStatus | drf/friends/views.py:25-33 | the register endpoint answers 201 exactly for a created user and 400 otherwise |
| Serializers.RegisterOutcome | drf/friends/views.py:20-33 | registration answers 201 exactly when the fields are valid; it then adds one user with exactly the given username and email, a token, no friends and no requests, leaves every existing user's row (email and token) as it was and changes no other table; a refusal changes nothing |
| Serializers.RegisterPreservesValid | drf/friends/serializers.py:39-46 | registration keeps every store invariant, in particular unique emails |
| Views.Status | drf/friends/views.py:98-121 | every outcome answers 200, 201 or 400, and 200 only for an already existing request |
| Views.SendRequestTo | drf/friends/views.py:99-121 | send answers NotFound, Self, AlreadyExists, AutoAdded or Sent; it never touches the users; only AutoAdded and Sent change the store, and only AutoAdded changes the Friend table |
| Views.AcceptRequestFrom | drf/friends/views.py:141-154 | accept answers NotFound, Accepted or NotAccepted; it never touches the users, and only Accepted changes the store |
| Views.RejectRequestFrom | drf/friends/views.py:173-185 | reject answers NotFound, Rejected or NotRejected; it never touches the users or the Friend table, and only Rejected changes the store |
| Views.DeleteFriend | drf/friends/views.py:206-225 | delete answers NotFound, Self, NotFriend or Deleted; it never touches the users or the requests, and only Deleted changes the store |
| Views.AllUsers | drf/friends/views.py:75-79 | the listing holds every user except the caller, one fewer than all users |
| Views.AcceptAndDeletePreservesValid | drf/friends/views.py:149-153 | accepting a pending request and deleting its row keeps every store invariant |
| Views.DeleteRowPreservesValid | drf/friends/views.py:181-184 | deleting a request row keeps every store invariant |
| Views.CreateRowPreservesValid | drf/friends/views.py:111-119 | creating a request between two different users with no request between them keeps every store invariant |
| Views.SendPreservesValid | drf/friends/views.py:99-121 | every send keeps the invariants: no self-request, one row per ordered pair, never requests both ways, symmetric friendship |
| Views.AcceptPreservesValid | drf/friends/views.py:141-154 | every accept keeps the store invariants |
| Views.RejectPreservesValid | drf/friends/views.py:173-185 | every reject keeps the store invariants |
| Views.DeletePreservesValid | drf/friends/views.py:206-225 | every delete keeps the store invariants |
| Views.UnknownUserChangesNothing | drf/friends/views.py:102-105 | an unknown username gets NotFound from send, accept, reject and delete, and the store is unchanged |
| Views.SelfChangesNothing | drf/friends/views.py:107-109 | sending to oneself or deleting oneself gets Self, and the store is unchanged |
| Views.SendCreatesRequest | drf/friends/views.py:111-119 | with no request either way, send answers Sent (201) and adds exactly the caller-to-target request, at the end of the caller's sent and the target's received list; accounts, friends and every other list are unchanged |
| Views.SendAutoAccepts | drf/friends/views.py:112-116 | when the target has already asked the caller, send answers AutoAdded (201), makes them friends both ways, deletes that request, creates no caller-to-target request and touches no other user's peers |
| Views.SendAlreadyExists | drf/friends/views.py:107-121 | an existing caller-to-target request gets AlreadyExists with 200 and no change; this check comes before the reverse-request check |
| Views.SendIgnoresFriendships | drf/friends/views.py:99-121 | with the same users and requests, send answers the same and leaves the same requests whatever the friendships |
| Views.SendToFriendCreatesRequest | drf/friends/views.py:111-119 | sending to an existing friend, with no request between them, creates a new pending request (there is no already-friends check) |
| Views.AcceptOutcome | drf/friends/views.py:149-154 | accept answers Accepted exactly when the sender has a pending request to the caller; an existing sender without one gets NotAccepted; every other answer is a 400 that changes nothing |
| Views.AcceptBefriends | drf/friends/views.py:149-153 | accepting a pending request deletes exactly that request from the table, makes the two friends both ways and touches no other user's peers |
| Views.AcceptUpdatesLists | drf/friends/views.py:149-153 | the accepted request leaves the caller's received list and the sender's sent list, the rest of each list keeping its order |
| Views.RejectOutcome | drf/friends/views.py:181-185 | reject answers Rejected exactly when the sender has a pending request to the caller and never touches friends or users; an existing sender without one gets NotRejected; every other answer is a 400 that changes nothing |
| Views.RejectDeletesRequest | drf/friends/views.py:181-184 | rejecting a pending request deletes exactly that request from the table |
| Views.RejectUpdatesLists | drf/friends/views.py:181-184 | the rejected request leaves the caller's received list and the sender's sent list, the rest of each list keeping its order |
| Views.DeleteOutcome | drf/friends/views.py:215-225 | delete answers Deleted exactly when the target is another user in the caller's Friend row; it then removes each from the other's peers, touches no other peers and no request; another existing user outside the caller's row gets NotFriend; every other answer is a 400 that changes nothing |
| Views.SendStatusTellsChange | drf/friends/views.py:99-121 | send answers 201 exactly when it changed the store |
| Views.AcceptStatusTellsChange | drf/friends/views.py:141-154 | accept answers 201 exactly when it changed the store |
| Views.RejectStatusTellsChange | drf/friends/views.py:173-185 | reject answers 201 exactly when it changed the store |
| Views.DeleteStatusTellsChange | drf/friends/views.py:206-225 | delete answers 201 exactly when it changed the store |
| Views.MutualRequestsBecomeFriends | drf/friends/tests.py:253-279 | A asks B, then B asks A: the first answer is Sent, the second AutoAdded; the two are friends, no request is left between them, and the request table is exactly what it was before |
| Views.ResendAfterDelete | drf/friends/views.py:215-225 | after a friend is deleted, neither side lists the other; when no request is left between the two, a new request to them is created (Sent) |
| Views.ResidualRequestAfterDelete | drf/friends/views.py:111-121 | a request sent to a friend survives the delete: a resend then answers AlreadyExists with no change, and a send the other way answers AutoAdded and makes the two friends again |
| Store.AutoAddScenario | drf/friends/tests.py:253-279 | with the two users of the test fixtures registered, the first request answers Sent, the crossed one AutoAdded; no request is left and the two are friends both ways |
| Store.FriendStore.Accept | drf/friends/models.py:23-33 | the in-place accept updates the Friend table as `Models.Accept` and leaves users and requests alone |
| Store.FriendStore.LoseFriend | drf/friends/models.py:51-61 | the in-place lose_friend updates the Friend table as `Models.LoseFriend` and leaves users and requests alone |
| Store.FriendStore.Register | drf/friends/views.py:20-33 | the in-place register answers and updates the tables as `Serializers.Register`, keeping the invariants |
| Store.FriendStore.SendRequestTo | drf/friends/views.py:99-121 | the in-place send answers and updates the tables as `Views.SendRequestTo`, keeping the invariants |
| Store.FriendStore.AcceptRequestFrom | drf/friends/views.py:141-154 | the in-place accept handler answers and updates the tables as `Views.AcceptRequestFrom`, keeping the invariants |
| Store.FriendStore.RejectRequestFrom | drf/friends/views.py:173-185 | the in-place reject handler answers and updates the tables as `Views.RejectRequestFrom`, keeping the invariants |
| Store.FriendStore.DeleteFriend | drf/friends/views.py:206-225 | the in-place delete handler answers and updates the tables as `Views.DeleteFriend`, keeping the invariants |

## Left out

- HTTP dispatch, URL routing, authentication and the Swagger/OpenAPI schema decorators are left out. The caller is a parameter: an existing username, which is what the authentication layer guarantees.
- Handlers run as sequential, atomic steps. The code has no locking or transactions, so the races between concurrent crossed requests are not modelled.
- Token generation is left out. The post-save signal in drf/friends/signals.py and `Token.objects.get_or_create` generate random, framework-owned keys. A key is an opaque parameter of `Register`, and a token is an optional value of the user.
- Password hashing and the password's stored value are left out; only the "password must be given" rule remains.
- The serializer fields' own behaviour is left out: email-format validation, whitespace trimming of character fields, and the password's 128-character limit. `Serializers.RegistrationErrors` keeps the required and "must be unused" rules only. A blank and a missing field give the same error, `Missing`.
- Request timestamps (`auto_now_add`) are left out. The table order of `pending` stands in for creation order.
- Serializers.SentBy, Serializers.ReceivedBy, Serializers.SentByAppend, Serializers.ReceivedByAppend, Views.SendCreatesRequest, Views.AcceptUpdatesLists, Views.RejectUpdatesLists: the order of the request lists is the model's choice, not a promise of the app. The profile's queries (drf/friends/serializers.py:137, 144) have no `order_by`, and `FriendRequest` declares no ordering, so the database may list a user's requests in any order. These members keep table order and prove facts about it. Only the membership facts hold of the app itself.
- A request body without `username` is looked up like any unknown name and answers NotFound. The handlers take the username as a plain string.
- The message strings of the responses are left out. Outcome variants and status codes replace them.
- The profile shows friends as a set of usernames. The order in which the database lists them is not modelled.
- Views.AllUsers: returns the other users as a set, not a list in database order. Usernames are unique and the query has no ordering, so only the order is lost.
- drf/drf/urls.py imports a `Greetings` view that is not part of this model.
