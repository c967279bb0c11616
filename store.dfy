/**
 * The persistent state behind users and friendships: the set of existing
 * user ids and the `friendships` table, a sequence of directed edge records
 * kept in store order. Also the two kinds of lookup the application makes on
 * it: `User.find(id)` and `Friendship.where(user_id:, friend_id:).first`,
 * and the `has_many` association queries filtered by `confirmed`.
 */
module Store {

  /** One row of the `friendships` table: `user_id` asked `friend_id`. */
  datatype Edge = Edge(userId: nat, friendId: nat, confirmed: bool)

  /** The exceptions the application can raise on these paths. */
  datatype Error =
    | RecordNotFound   // `User.find` on an id with no user
    | NoMethodOnNil    // a method called on the `nil` of an empty `.first`

  datatype Result<T> = Ok(value: T) | Err(error: Error)

  datatype Option<T> = None | Some(value: T)

  /**
   * Which association of a user a query goes through: `friendships`
   * (keyed by `user_id`) or `inverse_friendships` (keyed by `friend_id`).
   */
  datatype Direction = Outgoing | Incoming

  /** The edge belongs to `u`'s association in direction `dir`. */
  predicate Keyed(e: Edge, u: nat, dir: Direction) {
    match dir
    case Outgoing => e.userId == u
    case Incoming => e.friendId == u
  }

  /** The edge belongs to `u`'s association and its flag is `c`. */
  predicate Matches(e: Edge, u: nat, dir: Direction, c: bool) {
    Keyed(e, u, dir) && e.confirmed == c
  }

  /** The endpoint a list method looks up: `friend_id` outgoing, `user_id` incoming. */
  function Far(e: Edge, dir: Direction): nat {
    match dir
    case Outgoing => e.friendId
    case Incoming => e.userId
  }

  /** The edge runs from `from` to `to`. */
  predicate Links(e: Edge, from: nat, to: nat) {
    e.userId == from && e.friendId == to
  }

  /** The edge joins `a` and `b`, in either direction. */
  predicate Joins(e: Edge, a: nat, b: nat) {
    Links(e, a, b) || Links(e, b, a)
  }

  /** `User.find(id)`: the user when the id exists, `RecordNotFound` otherwise. */
  function FindUser(users: set<nat>, id: nat): (r: Result<nat>)
    ensures r.Ok? <==> id in users
    ensures r.Ok? ==> r.value == id
    ensures r.Err? ==> r.error == RecordNotFound
  {
    if id in users then Ok(id) else Err(RecordNotFound)
  }

  /**
   * `u.friendships.where(confirmed: c)` (or `inverse_friendships`): the
   * edges of the association with flag `c`, in store order.
   */
  function Select(edges: seq<Edge>, u: nat, dir: Direction, c: bool): (r: seq<Edge>)
    ensures |r| <= |edges|
    ensures forall e :: e in r <==> e in edges && Matches(e, u, dir, c)
    decreases |edges|
  {
    if edges == [] then []
    else
      var n := |edges| - 1;
      assert edges == edges[..n] + [edges[n]];
      Select(edges[..n], u, dir, c) + (if Matches(edges[n], u, dir, c) then [edges[n]] else [])
  }

  /** The number of edges of `u`'s association with flag `c`, counted from the front. */
  function Count(edges: seq<Edge>, u: nat, dir: Direction, c: bool): nat {
    if edges == [] then 0
    else (if Matches(edges[0], u, dir, c) then 1 else 0) + Count(edges[1..], u, dir, c)
  }

  /** The number of edges of `u`'s association, whatever their flag. */
  function Degree(edges: seq<Edge>, u: nat, dir: Direction): nat {
    if edges == [] then 0
    else (if Keyed(edges[0], u, dir) then 1 else 0) + Degree(edges[1..], u, dir)
  }

  /** The number of edges joining `a` and `b`, in either direction. */
  function JoinCount(edges: seq<Edge>, a: nat, b: nat): nat {
    if edges == [] then 0
    else (if Joins(edges[0], a, b) then 1 else 0) + JoinCount(edges[1..], a, b)
  }

  /**
   * `Friendship.where(user_id: from, friend_id: to).first`: the index of
   * the first edge from `from` to `to`, or `None` when there is none.
   */
  function FindFirst(edges: seq<Edge>, from: nat, to: nat): (r: Option<nat>)
    ensures r.None? <==> forall i :: 0 <= i < |edges| ==> !Links(edges[i], from, to)
    ensures r.Some? ==> r.value < |edges| && Links(edges[r.value], from, to)
    ensures r.Some? ==> forall j :: 0 <= j < r.value ==> !Links(edges[j], from, to)
  {
    if edges == [] then None
    else if Links(edges[0], from, to) then Some(0)
    else match FindFirst(edges[1..], from, to)
      case None => None
      case Some(k) => Some(k + 1)
  }

  /** The store with the row at index `i` deleted; the rest keep their order. */
  function RemoveAt(edges: seq<Edge>, i: nat): (r: seq<Edge>)
    requires i < |edges|
    ensures |r| == |edges| - 1
    ensures forall j :: 0 <= j < i ==> r[j] == edges[j]
    ensures forall j :: i <= j < |r| ==> r[j] == edges[j + 1]
  {
    edges[..i] + edges[i + 1..]
  }

  /** Selecting from a store with one more row at the end. */
  lemma SelectSnoc(edges: seq<Edge>, x: Edge, u: nat, dir: Direction, c: bool)
    ensures Select(edges + [x], u, dir, c)
         == Select(edges, u, dir, c) + (if Matches(x, u, dir, c) then [x] else [])
  {
  }

  lemma {:induction false} CountAppend(a: seq<Edge>, b: seq<Edge>, u: nat, dir: Direction, c: bool)
    ensures Count(a + b, u, dir, c) == Count(a, u, dir, c) + Count(b, u, dir, c)
    decreases |a|
  {
    if a == [] {
      assert a + b == b;
    } else {
      assert (a + b)[1..] == a[1..] + b;
      CountAppend(a[1..], b, u, dir, c);
    }
  }

  lemma {:induction false} JoinCountAppend(a: seq<Edge>, b: seq<Edge>, x: nat, y: nat)
    ensures JoinCount(a + b, x, y) == JoinCount(a, x, y) + JoinCount(b, x, y)
    decreases |a|
  {
    if a == [] {
      assert a + b == b;
    } else {
      assert (a + b)[1..] == a[1..] + b;
      JoinCountAppend(a[1..], b, x, y);
    }
  }

  /** The query returns exactly as many edges as the store holds matching rows. */
  lemma {:induction false} SelectCount(edges: seq<Edge>, u: nat, dir: Direction, c: bool)
    ensures |Select(edges, u, dir, c)| == Count(edges, u, dir, c)
    decreases |edges|
  {
    if edges != [] {
      var n := |edges| - 1;
      SelectCount(edges[..n], u, dir, c);
      assert edges == edges[..n] + [edges[n]];
      CountAppend(edges[..n], [edges[n]], u, dir, c);
      assert [edges[n]][1..] == [];
    }
  }

  /** Pending and confirmed rows split the association: every row has exactly one flag. */
  lemma {:induction false} CountSplit(edges: seq<Edge>, u: nat, dir: Direction)
    ensures Count(edges, u, dir, false) + Count(edges, u, dir, true) == Degree(edges, u, dir)
    decreases |edges|
  {
    if edges != [] {
      CountSplit(edges[1..], u, dir);
    }
  }

  /** A store with no edge joining `a` and `b` has `JoinCount` zero, and conversely. */
  lemma {:induction false} JoinCountZero(edges: seq<Edge>, a: nat, b: nat)
    ensures JoinCount(edges, a, b) == 0 <==> forall i :: 0 <= i < |edges| ==> !Joins(edges[i], a, b)
    decreases |edges|
  {
    if edges != [] {
      JoinCountZero(edges[1..], a, b);
      assert forall i :: 1 <= i < |edges| ==> edges[i] == edges[1..][i - 1];
    }
  }

  /** Two different rows joining `a` and `b` make `JoinCount` at least two. */
  lemma {:induction false} TwoJoins(edges: seq<Edge>, a: nat, b: nat, i: nat, j: nat)
    requires i < j < |edges|
    requires Joins(edges[i], a, b) && Joins(edges[j], a, b)
    ensures JoinCount(edges, a, b) >= 2
    decreases |edges|
  {
    if i == 0 {
      JoinCountZero(edges[1..], a, b);
      assert edges[1..][j - 1] == edges[j];
    } else {
      assert edges[1..][i - 1] == edges[i] && edges[1..][j - 1] == edges[j];
      TwoJoins(edges[1..], a, b, i - 1, j - 1);
    }
  }

  /** The users table and the friendships table, as the database holds them. */
  class Db {
    var users: set<nat>
    var edges: seq<Edge>

    /** A database with the given users and an empty friendships table. */
    constructor (users: set<nat>)
      ensures this.users == users && edges == []
    {
      this.users := users;
      edges := [];
    }
  }
}
