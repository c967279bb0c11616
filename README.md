# Friendship edge store of a small social network

This project models the friendship logic of a Rails social-networking app.
The friendships table holds directed edge records `(user_id, friend_id,
confirmed)` in store order. Beside it is the set of existing user ids.

- `Store` (`store.dfy`) holds the database: the `Edge` record, the `Db`
  class with `users` and `edges`, `User.find` (`FindUser`), the
  association queries `friendships.where(confirmed: c)` and
  `inverse_friendships.where(confirmed: c)` (`Select`), and
  `Friendship.where(user_id:, friend_id:).first` (`FindFirst`).
- `UserModel` (`user.dfy`) covers the `User` model. It has the four list
  methods, each a loop that appends `User.find` of every selected edge's far
  endpoint, and `friends`. Each method is proved equal to a pure
  specification (`ListOf`, `FriendsOf`), and the lemmas are about that
  specification. It also has the two validations the model itself declares
  (a password of at least 6 characters; a name that is not blank and has 2
  to 50 characters), as the sets of errors those two rules record.
- `FriendshipsController` (`friendships_controller.dfy`) covers the
  `create`, `update` and `destroy` actions as methods that change
  `db.edges`. `find_friend` comes before `create` and `destroy`. The pure
  functions `Accepted` and `Destroyed` give the new store, and the lemmas
  state what those transitions promise.

The acting user (`current_user`) and the target (`params[:id]`) are passed
in as `nat` ids. An exception becomes a `Failure`/`Err` value:
`RecordNotFound` for `User.find` on a missing id, and `NoMethodOnNil` for
`update_attributes` called on the `nil` that an empty `.first` returns.

Behaviour of the code worth knowing:
- `destroy` looks for an edge `other -> current` first and only then for
  `current -> other`.
- `friends` is a plain concatenation that keeps duplicates. It is not a
  deduplicated set.
- No duplicate or self edge is rejected on `create`.
- `update` runs no `find_friend`, so it does not check that the user exists.
- In the list methods, each `User.find` raises when an edge's far endpoint
  is not an existing user, and then the whole list is lost.

## Model

| member | source | states |
|---|---|---|
| Store.FindUser | app/controllers/friendships_controller.rb:37-39 | `User.find` succeeds exactly when the id is an existing user and returns that user; otherwise `RecordNotFound` |
| Store.Select | app/models/user.rb:13-14 | the filtered association holds exactly the store's edges keyed on `u` in the direction with the given `confirmed` flag, and never more rows than the store |
| Store.FindFirst | app/controllers/friendships_controller.rb:16 | `where(user_id:, friend_id:).first` is `None` iff no edge runs `from -> to`; otherwise it is the least index of such an edge |
| Store.RemoveAt | app/controllers/friendships_controller.rb:28 | deleting a row shortens the store by one and shifts only the later rows down |
| Store.SelectCount | app/models/user.rb:20-42 | a query returns exactly as many rows as the store has matching edges (counted independently from the front) |
| Store.CountSplit | app/models/user.rb:20-42 | for each user and direction, pending rows plus confirmed rows equal all rows of the association |
| Store.SelectSnoc | app/models/user.rb:22 | a row appended to the store is appended to the result of every query it matches and leaves the others alone |
| Store.JoinCountZero | app/controllers/friendships_controller.rb:26-33 | no edge joins the pair in either direction iff their join count is zero |
| Store.TwoJoins | app/controllers/friendships_controller.rb:26-33 | two distinct rows joining the pair make the join count at least two |
| UserModel.Collect | app/models/user.rb:21-23 | the `each { << User.find }` loop yields, in row order, the far endpoint of every row when all exist, and `RecordNotFound` iff some row's endpoint is missing |
| UserModel.FriendshipsPending | app/models/user.rb:20-24 | returns the pending outgoing list `ListOf(.., Outgoing, false)` |
| UserModel.InverseFriendshipsPending | app/models/user.rb:26-30 | returns the pending incoming list `ListOf(.., Incoming, false)` |
| UserModel.FriendshipsConfirmed | app/models/user.rb:32-36 | returns the confirmed outgoing list `ListOf(.., Outgoing, true)` |
| UserModel.InverseFriendshipsConfirmed | app/models/user.rb:38-42 | returns the confirmed incoming list `ListOf(.., Incoming, true)` |
| UserModel.Friends | app/models/user.rb:16-18 | returns `FriendsOf`: the outgoing confirmed list, then the incoming one; the first error wins |
| UserModel.ListDefined | app/models/user.rb:22 | a list is produced iff every matching edge's far endpoint is an existing user; otherwise the error is `RecordNotFound` |
| UserModel.ListMembers | app/models/user.rb:20-42 | `x` is in `u`'s list for a direction and flag iff the store holds that exact edge (`u -> x` outgoing, `x -> u` incoming) with that flag; an unconfirmed edge never puts anyone in a confirmed list |
| UserModel.ListLength | app/models/user.rb:20-42 | each list has exactly one entry per matching edge |
| UserModel.PendingConfirmedSplit | app/models/user.rb:20-42 | the pending and confirmed lists of one direction together are as long as the whole association |
| UserModel.ListSnoc | app/models/user.rb:20-42 | appending an edge extends only the lists it matches, by its far endpoint, at the end |
| UserModel.FriendsConcat | app/models/user.rb:16-18 | `friends` is defined iff both confirmed lists are; it is their plain concatenation, and its length is the sum of the two counts |
| UserModel.ConfirmedEdgeMakesFriends | app/models/user.rb:16-18 | one confirmed edge `u -> v` puts `v` in `friends(u)` and `u` in `friends(v)`, with no reciprocal edge |
| UserModel.FriendsMembers | app/models/user.rb:16-18 | `x` is a friend of `u` iff a confirmed edge joins them in either direction |
| UserModel.ConsistentStoreLists | app/models/user.rb:20-42 | when every edge joins existing users, no list and no `friends` call raises |
| UserModel.FixtureLists | spec/models/user_spec.rb:9-12 | with one confirmed and one pending edge from `user`, each of the four lists tested has exactly one entry, and users 1 and 2 are each other's only friend |
| UserModel.NameValidity | app/models/user.rb:8 | a name passes iff it has a non-whitespace character and 2 to 50 characters; at most two name errors arise at once |
| UserModel.PasswordValidity | app/models/user.rb:7 | under the model's own length rule, a password passes iff it has at least 6 characters, and the only error is "too short (minimum 6)"; Devise's extra rules are left out |
| UserModel.NameExamples | spec/models/user_spec.rb:14-31 | `""` is blank and too short, `"a"` too short, 51 characters too long, `"  "` only blank, `"john"` valid |
| UserModel.PasswordExamples | spec/models/user_spec.rb:53-58 | `"pass"` and `""` are too short (minimum 6), `"password"` passes |
| FriendshipsController.Create | app/controllers/friendships_controller.rb:2-5 | for an existing target it succeeds and appends exactly `Edge(current, friend, false)`, with no duplicate or self check; otherwise `RecordNotFound` and the store is unchanged |
| FriendshipsController.Update | app/controllers/friendships_controller.rb:15-17 | succeeds iff an edge `other -> current` exists and then confirms the first one; otherwise it fails with `NoMethodOnNil` and the store is unchanged |
| FriendshipsController.Destroy | app/controllers/friendships_controller.rb:26-33 | for an existing target it always succeeds and gives the `Destroyed` store; for a missing target it gives `RecordNotFound` and the store is unchanged |
| FriendshipsController.CreateAddsPendingRequest | app/controllers/friendships_controller.rb:5 | the new request comes last in the sender's pending list and in the addressee's incoming pending list; no confirmed list and no `friends` list changes |
| FriendshipsController.AcceptConfirmsFirstRequest | app/controllers/friendships_controller.rb:16-17 | acceptance is impossible iff no edge `other -> current` exists; otherwise only the first such edge changes, to confirmed; the length and every other edge stay as they were, `current -> other` edges included |
| FriendshipsController.AcceptNeverDowngrades | app/controllers/friendships_controller.rb:17 | acceptance keeps every edge's endpoints and never turns a confirmed edge back to pending |
| FriendshipsController.AcceptMakesFriends | app/controllers/friendships_controller.rb:16-17 | after acceptance each user is in the other's `friends`; if that edge was the only one joining them, neither is left in the other's pending lists |
| FriendshipsController.DestroyRemovesFirstLink | app/controllers/friendships_controller.rb:27-31 | `destroy` deletes the first edge `other -> current` if there is one, else the first edge `current -> other`, else nothing |
| FriendshipsController.DestroyRemovesAtMostOne | app/controllers/friendships_controller.rb:26-33 | the store shrinks by one iff an edge joins the pair, and by nothing otherwise; the deleted edge joins the pair; what is left is a sub-multiset of the store in its old order, so no flag changes |
| FriendshipsController.RemoveAtMultiset | app/controllers/friendships_controller.rb:28 | deleting a row takes exactly that row out of the store's multiset |
| FriendshipsController.RemoveAtJoinCount | app/controllers/friendships_controller.rb:28-30 | deleting a row that joins the pair lowers their join count by exactly one |
| FriendshipsController.DestroyTwiceIsOnce | app/controllers/friendships_controller.rb:26-33 | when one edge joined the pair, `destroy` leaves none, and a second `destroy` leaves the store unchanged |
| FriendshipsController.DestroySymmetric | app/controllers/friendships_controller.rb:26-33 | when at most one edge joins the pair, `destroy` by either user deletes the same edge |
| UserModel.TwoRequestLists | app/models/user.rb:16-30 | after two requests from user 1 (to 2 and 3), user 1's pending list is `[2, 3]`, user 2's incoming pending list is `[1]`, and user 1 has no friends |
| FriendshipsController.RequestAcceptRemove | app/controllers/friendships_controller.rb:4-33 | the actions run in order on a fresh store: two requests, one accept, an accept with no request (fails), then two removals; after the accept users 1 and 2 are each other's friends, and the removals leave the store empty |

## Left out

- Devise authentication, the session behind `current_user`, and the email
  rules (presence, format, uniqueness). These belong to a foreign library
  and to database state that is not shown. The acting user is a parameter.
- Flash messages and `redirect_back`. They are user-interface plumbing, and
  the actions return an `Outcome` in their place.
- `Create`: the `@friendship.save` failure branch is not modelled. The code
  gives no cause for a persistence failure, so creation always succeeds once
  the target exists.
- `Update`: the `update_attributes` failure branch is not modelled, for the
  same reason. Confirming an existing edge always succeeds. The `Friendship`
  model is not part of this model.
- UserModel.PasswordValidity: states only the rule the model declares
  itself. The password rules that Devise's `:validatable` adds are not modelled:
  presence, the confirmation match, and its own length range of 6 to 128
  characters (so a password of more than 128 characters, which Devise
  rejects, passes `PasswordErrors`). Devise is a foreign library not shown.
- `NameErrors` and `PasswordErrors` take strings, never `nil`. A `nil` name
  would get both the blank and the too-short error; a `nil` value is not
  modelled.
- The `posts`, `comments` and `likes` associations, `dependent: :destroy`,
  and the association-reflection tests. Those models are not part of this
  model.
- The cost of one `User.find` per edge. It is a performance matter, not a
  behaviour. Concurrency and transactions are out of scope too: each action
  is one atomic step on `db.edges`.
- Query results come back in store order. The database gives no such
  guarantee without an `order` clause, and the model fixes this one order.
- A list method returns user ids in place of `User` objects.
