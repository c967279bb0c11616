/**
 * `FriendshipsController`: the three actions on the friendships table.
 * The acting user (`current_user`) is passed in as an id and the target
 * (`params[:id]`) as another; `create` and `destroy` first run the
 * `find_friend` filter, which raises `RecordNotFound` for an unknown target.
 */
module FriendshipsController {
  import opened Store
  import opened UserModel

  /** How an action ends: normally, or with the exception it raised. */
  datatype Outcome = Success | Failure(error: Error)

  /** `k` is the index of the first edge from `from` to `to`. */
  predicate FirstLink(edges: seq<Edge>, k: nat, from: nat, to: nat) {
    k < |edges| && Links(edges[k], from, to)
    && forall j :: 0 <= j < k ==> !Links(edges[j], from, to)
  }

  /** Some edge joins `a` and `b`, in either direction. */
  predicate Joined(edges: seq<Edge>, a: nat, b: nat) {
    exists i :: 0 <= i < |edges| && Joins(edges[i], a, b)
  }

  /**
   * The store after `update` by `current` on `other`, or `None` when the
   * lookup of an edge `other -> current` comes back empty.
   */
  function Accepted(edges: seq<Edge>, current: nat, other: nat): Option<seq<Edge>> {
    match FindFirst(edges, other, current)
    case None => None
    case Some(i) => Some(edges[i := edges[i].(confirmed := true)])
  }

  /**
   * The store after `destroy` by `current` on `other`: the first edge
   * `other -> current` goes, else the first edge `current -> other`, else
   * nothing does.
   */
  function Destroyed(edges: seq<Edge>, current: nat, other: nat): seq<Edge> {
    match FindFirst(edges, other, current)
    case Some(i) => RemoveAt(edges, i)
    case None =>
      match FindFirst(edges, current, other)
      case Some(j) => RemoveAt(edges, j)
      case None => edges
  }

  /** `create`: `find_friend`, then a new pending edge `current -> friendId` at the end. */
  method Create(db: Db, current: nat, friendId: nat) returns (out: Outcome)
    modifies db`edges
    ensures friendId in db.users ==> out == Success && db.edges == old(db.edges) + [Edge(current, friendId, false)]
    ensures friendId !in db.users ==> out == Failure(RecordNotFound) && db.edges == old(db.edges)
  {
    var friend := FindUser(db.users, friendId);
    if friend.Err? {
      return Failure(friend.error);
    }
    db.edges := db.edges + [Edge(current, friend.value, false)];
    out := Success;
  }

  /** `update`: confirm the first edge `other -> current`; `nil.update_attributes` raises when there is none. */
  method Update(db: Db, current: nat, other: nat) returns (out: Outcome)
    modifies db`edges
    ensures out == Success <==> exists i :: 0 <= i < |old(db.edges)| && Links(old(db.edges)[i], other, current)
    ensures out.Failure? ==> out.error == NoMethodOnNil && db.edges == old(db.edges)
    ensures out == Success ==> db.edges == Accepted(old(db.edges), current, other).value
  {
    var first := FindFirst(db.edges, other, current);
    if first.None? {
      return Failure(NoMethodOnNil);
    }
    var i := first.value;
    db.edges := db.edges[i := db.edges[i].(confirmed := true)];
    out := Success;
  }

  /** `destroy`: `find_friend`, then the `if`/`elsif` deletion; it never fails afterwards. */
  method Destroy(db: Db, current: nat, other: nat) returns (out: Outcome)
    modifies db`edges
    ensures other in db.users ==> out == Success && db.edges == Destroyed(old(db.edges), current, other)
    ensures other !in db.users ==> out == Failure(RecordNotFound) && db.edges == old(db.edges)
  {
    var friend := FindUser(db.users, other);
    if friend.Err? {
      return Failure(friend.error);
    }
    var inverse := FindFirst(db.edges, other, current);
    if inverse.Some? {
      db.edges := RemoveAt(db.edges, inverse.value);
    } else {
      var direct := FindFirst(db.edges, current, other);
      if direct.Some? {
        db.edges := RemoveAt(db.edges, direct.value);
      }
    }
    out := Success;
  }

  /**
   * After `create`, the new request is last in the sender's pending list
   * and in the addressee's incoming pending list, and no confirmed list
   * (hence no `friends` list) changes.
   */
  lemma CreateAddsPendingRequest(edges: seq<Edge>, users: set<nat>, current: nat, friendId: nat)
    ensures var e := Edge(current, friendId, false);
      Select(edges + [e], current, Outgoing, false) == Select(edges, current, Outgoing, false) + [e]
      && Select(edges + [e], friendId, Incoming, false) == Select(edges, friendId, Incoming, false) + [e]
    ensures friendId in users && ListOf(edges, users, current, Outgoing, false).Ok? ==>
      ListOf(edges + [Edge(current, friendId, false)], users, current, Outgoing, false)
        == Ok(ListOf(edges, users, current, Outgoing, false).value + [friendId])
    ensures current in users && ListOf(edges, users, friendId, Incoming, false).Ok? ==>
      ListOf(edges + [Edge(current, friendId, false)], users, friendId, Incoming, false)
        == Ok(ListOf(edges, users, friendId, Incoming, false).value + [current])
    ensures forall u: nat, dir: Direction ::
      ListOf(edges + [Edge(current, friendId, false)], users, u, dir, true) == ListOf(edges, users, u, dir, true)
    ensures forall u: nat :: FriendsOf(edges + [Edge(current, friendId, false)], users, u) == FriendsOf(edges, users, u)
  {
    var e := Edge(current, friendId, false);
    SelectSnoc(edges, e, current, Outgoing, false);
    SelectSnoc(edges, e, friendId, Incoming, false);
    ListSnoc(edges, users, e, current, Outgoing, false);
    ListSnoc(edges, users, e, friendId, Incoming, false);
    forall u: nat, dir: Direction
      ensures ListOf(edges + [e], users, u, dir, true) == ListOf(edges, users, u, dir, true)
    {
      ListSnoc(edges, users, e, u, dir, true);
    }
  }

  /**
   * `update` fails exactly when no edge `other -> current` exists; otherwise
   * it confirms the first such edge and leaves the length and every other
   * edge alone, edges `current -> other` included.
   */
  lemma AcceptConfirmsFirstRequest(edges: seq<Edge>, current: nat, other: nat)
    ensures Accepted(edges, current, other).None? <==> forall i :: 0 <= i < |edges| ==> !Links(edges[i], other, current)
    ensures Accepted(edges, current, other).Some? ==>
      var after := Accepted(edges, current, other).value;
      |after| == |edges|
      && exists k: nat :: (FirstLink(edges, k, other, current) && after[k] == Edge(other, current, true)
           && forall j :: 0 <= j < |edges| && j != k ==> after[j] == edges[j])
    ensures Accepted(edges, current, other).Some? && current != other ==>
      forall j :: 0 <= j < |edges| && Links(edges[j], current, other) ==> Accepted(edges, current, other).value[j] == edges[j]
  {
    if Accepted(edges, current, other).Some? {
      var k := FindFirst(edges, other, current).value;
      assert FirstLink(edges, k, other, current);
    }
  }

  /** `update` only ever turns a flag on: endpoints stay, and a confirmed edge stays confirmed. */
  lemma AcceptNeverDowngrades(edges: seq<Edge>, current: nat, other: nat)
    requires Accepted(edges, current, other).Some?
    ensures var after := Accepted(edges, current, other).value;
      |after| == |edges|
      && forall i :: 0 <= i < |edges| ==>
           Links(after[i], edges[i].userId, edges[i].friendId) && (edges[i].confirmed ==> after[i].confirmed)
  {
  }

  /**
   * After a successful `update`, the two users are friends of each other;
   * when that edge was the only one joining them, neither is in the other's
   * pending lists any more.
   */
  lemma AcceptMakesFriends(edges: seq<Edge>, users: set<nat>, current: nat, other: nat)
    requires Accepted(edges, current, other).Some?
    ensures var after := Accepted(edges, current, other).value;
      (FriendsOf(after, users, current).Ok? ==> other in FriendsOf(after, users, current).value)
      && (FriendsOf(after, users, other).Ok? ==> current in FriendsOf(after, users, other).value)
    ensures var after := Accepted(edges, current, other).value;
      JoinCount(edges, current, other) == 1 ==>
        (ListOf(after, users, other, Outgoing, false).Ok? ==> current !in ListOf(after, users, other, Outgoing, false).value)
        && (ListOf(after, users, current, Incoming, false).Ok? ==> other !in ListOf(after, users, current, Incoming, false).value)
        && (ListOf(after, users, other, Incoming, false).Ok? ==> current !in ListOf(after, users, other, Incoming, false).value)
        && (ListOf(after, users, current, Outgoing, false).Ok? ==> other !in ListOf(after, users, current, Outgoing, false).value)
  {
    var after := Accepted(edges, current, other).value;
    var k := FindFirst(edges, other, current).value;
    assert after[k] == Edge(other, current, true);
    ConfirmedEdgeMakesFriends(after, users, other, current);
    if JoinCount(edges, current, other) == 1 {
      forall j | 0 <= j < |after| && j != k ensures !Joins(after[j], current, other) {
        if Joins(after[j], current, other) {
          if j < k {
            TwoJoins(edges, current, other, j, k);
          } else {
            TwoJoins(edges, current, other, k, j);
          }
        }
      }
      assert Edge(other, current, false) !in after;
      assert Edge(current, other, false) !in after;
      if ListOf(after, users, other, Outgoing, false).Ok? {
        ListMembers(after, users, other, Outgoing, false, current);
      }
      if ListOf(after, users, current, Incoming, false).Ok? {
        ListMembers(after, users, current, Incoming, false, other);
      }
      if ListOf(after, users, other, Incoming, false).Ok? {
        ListMembers(after, users, other, Incoming, false, current);
      }
      if ListOf(after, users, current, Outgoing, false).Ok? {
        ListMembers(after, users, current, Outgoing, false, other);
      }
    }
  }

  /**
   * Which edge `destroy` deletes: the first `other -> current` if one
   * exists, else the first `current -> other`, else none.
   */
  lemma DestroyRemovesFirstLink(edges: seq<Edge>, current: nat, other: nat)
    ensures (exists i :: 0 <= i < |edges| && Links(edges[i], other, current)) ==>
      exists k :: FirstLink(edges, k, other, current) && Destroyed(edges, current, other) == RemoveAt(edges, k)
    ensures ((forall i :: 0 <= i < |edges| ==> !Links(edges[i], other, current))
             && (exists i :: 0 <= i < |edges| && Links(edges[i], current, other))) ==>
      exists k :: FirstLink(edges, k, current, other) && Destroyed(edges, current, other) == RemoveAt(edges, k)
    ensures !Joined(edges, current, other) ==> Destroyed(edges, current, other) == edges
  {
    match FindFirst(edges, other, current)
    case Some(k) =>
      assert FirstLink(edges, k, other, current);
    case None =>
      match FindFirst(edges, current, other)
      case Some(k) =>
        assert FirstLink(edges, k, current, other);
      case None =>
  }

  /**
   * `destroy` deletes at most one edge: the store shrinks by one exactly
   * when an edge joins the pair, the deleted edge is one of those, and the
   * rest keep their relative order and their flags.
   */
  lemma DestroyRemovesAtMostOne(edges: seq<Edge>, current: nat, other: nat)
    ensures |Destroyed(edges, current, other)| == |edges| - (if Joined(edges, current, other) then 1 else 0)
    ensures Joined(edges, current, other) ==>
      exists k :: 0 <= k < |edges| && Joins(edges[k], current, other) && Destroyed(edges, current, other) == RemoveAt(edges, k)
    ensures multiset(Destroyed(edges, current, other)) <= multiset(edges)
  {
    match FindFirst(edges, other, current)
    case Some(k) =>
      RemoveAtMultiset(edges, k);
    case None =>
      match FindFirst(edges, current, other)
      case Some(k) =>
        RemoveAtMultiset(edges, k);
      case None =>
        assert !Joined(edges, current, other);
  }

  /** Deleting a row takes exactly that row out of the store's multiset. */
  lemma RemoveAtMultiset(edges: seq<Edge>, k: nat)
    requires k < |edges|
    ensures multiset(RemoveAt(edges, k)) + multiset{edges[k]} == multiset(edges)
  {
    assert edges == edges[..k] + [edges[k]] + edges[k + 1..];
  }

  /** Deleting a row that joins the pair lowers their join count by one. */
  lemma RemoveAtJoinCount(edges: seq<Edge>, k: nat, a: nat, b: nat)
    requires k < |edges| && Joins(edges[k], a, b)
    ensures JoinCount(RemoveAt(edges, k), a, b) == JoinCount(edges, a, b) - 1
  {
    assert edges == edges[..k] + ([edges[k]] + edges[k + 1..]);
    JoinCountAppend(edges[..k], [edges[k]] + edges[k + 1..], a, b);
    JoinCountAppend([edges[k]], edges[k + 1..], a, b);
    JoinCountAppend(edges[..k], edges[k + 1..], a, b);
    assert [edges[k]][1..] == [];
  }

  /**
   * When one edge joined the pair, `destroy` leaves none, and a second
   * `destroy` changes nothing.
   */
  lemma DestroyTwiceIsOnce(edges: seq<Edge>, current: nat, other: nat)
    requires JoinCount(edges, current, other) == 1
    ensures !Joined(Destroyed(edges, current, other), current, other)
    ensures Destroyed(Destroyed(edges, current, other), current, other) == Destroyed(edges, current, other)
  {
    JoinCountZero(edges, current, other);
    DestroyRemovesAtMostOne(edges, current, other);
    var k :| 0 <= k < |edges| && Joins(edges[k], current, other) && Destroyed(edges, current, other) == RemoveAt(edges, k);
    RemoveAtJoinCount(edges, k, current, other);
    var once := Destroyed(edges, current, other);
    JoinCountZero(once, current, other);
    DestroyRemovesFirstLink(once, current, other);
  }

  /**
   * When at most one edge joins the pair, either user's `destroy` deletes
   * the same edge.
   */
  lemma DestroySymmetric(edges: seq<Edge>, a: nat, b: nat)
    requires JoinCount(edges, a, b) <= 1
    ensures Destroyed(edges, a, b) == Destroyed(edges, b, a)
  {
    match (FindFirst(edges, b, a), FindFirst(edges, a, b))
    case (Some(i), Some(j)) =>
      if i < j {
        TwoJoins(edges, a, b, i, j);
      } else if j < i {
        TwoJoins(edges, a, b, j, i);
      }
    case _ =>
  }

  /**
   * Request, accept, remove, told through the actions: user 1 asks users 2
   * and 3; both requests are pending; user 2's accept makes 1 and 2 friends;
   * an accept with no request fails; removing from either side deletes the
   * one edge that joins the pair.
   */
  method RequestAcceptRemove() returns (db: Db)
    ensures db.edges == []
  {
    db := new Db({1, 2, 3});
    var sent := Create(db, 1, 2);
    var sentToC := Create(db, 1, 3);
    assert sent == Success && sentToC == Success;
    assert db.edges == [Edge(1, 2, false), Edge(1, 3, false)];
    var pendingOut := FriendshipsPending(db.edges, db.users, 1);
    var pendingIn := InverseFriendshipsPending(db.edges, db.users, 2);
    var none := Friends(db.edges, db.users, 1);
    TwoRequestLists(db.edges, db.users);
    assert pendingOut == Ok([2, 3]) && pendingIn == Ok([1]) && none == Ok([]);
    assert FindFirst(db.edges, 1, 2) == Some(0);
    var accepted := Update(db, 2, 1);
    assert accepted == Success && db.edges == [Edge(1, 2, true), Edge(1, 3, false)];
    FixtureLists(db.edges, db.users);
    var friendsOf1 := Friends(db.edges, db.users, 1);
    var friendsOf2 := Friends(db.edges, db.users, 2);
    assert friendsOf1 == Ok([2]) && friendsOf2 == Ok([1]);
    var missing := Update(db, 3, 2);
    assert missing == Failure(NoMethodOnNil);
    var removed := Destroy(db, 2, 1);
    assert db.edges == [Edge(1, 3, false)];
    var again := Destroy(db, 1, 3);
    assert removed == Success && again == Success && db.edges == [];
  }
}
