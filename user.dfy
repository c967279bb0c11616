/**
 * The `User` model: the four friend lists derived from the friendships
 * table, `friends`, and the name and password validations.
 *
 * Each list method starts from an empty list and, for every edge of the
 * filtered association in store order, appends `User.find` of the edge's
 * far endpoint; a missing user raises `RecordNotFound` and the list is lost.
 */
module UserModel {
  import opened Store

  /** The far endpoints of `rows`, one per row, in order. */
  function Ends(rows: seq<Edge>, dir: Direction): (ids: seq<nat>) {
    seq(|rows|, i requires 0 <= i < |rows| => Far(rows[i], dir))
  }

  /** Every id names an existing user. */
  predicate AllExist(users: set<nat>, ids: seq<nat>) {
    forall i :: 0 <= i < |ids| ==> ids[i] in users
  }

  /** What looking up each row's far endpoint yields: all of them, or `RecordNotFound`. */
  function Resolved(users: set<nat>, rows: seq<Edge>, dir: Direction): Result<seq<nat>> {
    var ids := Ends(rows, dir);
    if AllExist(users, ids) then Ok(ids) else Err(RecordNotFound)
  }

  /** The list `u`'s association in direction `dir` with flag `c` gives. */
  function ListOf(edges: seq<Edge>, users: set<nat>, u: nat, dir: Direction, c: bool): Result<seq<nat>> {
    Resolved(users, Select(edges, u, dir, c), dir)
  }

  /** `friends`: the outgoing confirmed list followed by the incoming one. */
  function FriendsOf(edges: seq<Edge>, users: set<nat>, u: nat): Result<seq<nat>> {
    match ListOf(edges, users, u, Outgoing, true)
    case Err(e) => Err(e)
    case Ok(out) =>
      match ListOf(edges, users, u, Incoming, true)
      case Err(e) => Err(e)
      case Ok(inc) => Ok(out + inc)
  }

  /** The edge that puts `x` into `u`'s list in direction `dir` with flag `c`. */
  function Pair(u: nat, x: nat, dir: Direction, c: bool): (e: Edge)
    ensures Matches(e, u, dir, c) && Far(e, dir) == x
  {
    match dir
    case Outgoing => Edge(u, x, c)
    case Incoming => Edge(x, u, c)
  }

  /**
   * The `each { |fs| list << User.find(...) }` loop shared by the four list
   * methods, run over the rows the query returned.
   */
  method Collect(users: set<nat>, rows: seq<Edge>, dir: Direction) returns (r: Result<seq<nat>>)
    ensures r.Ok? <==> forall e :: e in rows ==> Far(e, dir) in users
    ensures r.Ok? ==> |r.value| == |rows| && forall i :: 0 <= i < |rows| ==> r.value[i] == Far(rows[i], dir)
    ensures r.Err? ==> r.error == RecordNotFound
    ensures r == Resolved(users, rows, dir)
  {
    var list: seq<nat> := [];
    var i := 0;
    while i < |rows|
      invariant 0 <= i <= |rows|
      invariant |list| == i
      invariant forall k :: 0 <= k < i ==> list[k] == Far(rows[k], dir) && list[k] in users
    {
      var found := FindUser(users, Far(rows[i], dir));
      if found.Err? {
        assert Ends(rows, dir)[i] !in users;
        return Err(found.error);
      }
      list := list + [found.value];
      i := i + 1;
    }
    assert list == Ends(rows, dir);
    r := Ok(list);
  }

  /** `friendships_pending`: who `u` has asked and not yet been accepted by. */
  method FriendshipsPending(edges: seq<Edge>, users: set<nat>, u: nat) returns (r: Result<seq<nat>>)
    ensures r == ListOf(edges, users, u, Outgoing, false)
  {
    var rows := Select(edges, u, Outgoing, false);
    r := Collect(users, rows, Outgoing);
  }

  /** `inverse_friendships_pending`: who has asked `u` and awaits an answer. */
  method InverseFriendshipsPending(edges: seq<Edge>, users: set<nat>, u: nat) returns (r: Result<seq<nat>>)
    ensures r == ListOf(edges, users, u, Incoming, false)
  {
    var rows := Select(edges, u, Incoming, false);
    r := Collect(users, rows, Incoming);
  }

  /** `friendships_confirmed`: who accepted `u`'s requests. */
  method FriendshipsConfirmed(edges: seq<Edge>, users: set<nat>, u: nat) returns (r: Result<seq<nat>>)
    ensures r == ListOf(edges, users, u, Outgoing, true)
  {
    var rows := Select(edges, u, Outgoing, true);
    r := Collect(users, rows, Outgoing);
  }

  /** `inverse_friendships_confirmed`: whose requests `u` accepted. */
  method InverseFriendshipsConfirmed(edges: seq<Edge>, users: set<nat>, u: nat) returns (r: Result<seq<nat>>)
    ensures r == ListOf(edges, users, u, Incoming, true)
  {
    var rows := Select(edges, u, Incoming, true);
    r := Collect(users, rows, Incoming);
  }

  /** `friends`: the two confirmed lists, concatenated; the first to raise wins. */
  method Friends(edges: seq<Edge>, users: set<nat>, u: nat) returns (r: Result<seq<nat>>)
    ensures r == FriendsOf(edges, users, u)
  {
    var out := FriendshipsConfirmed(edges, users, u);
    if out.Err? {
      return Err(out.error);
    }
    var inc := InverseFriendshipsConfirmed(edges, users, u);
    if inc.Err? {
      return Err(inc.error);
    }
    r := Ok(out.value + inc.value);
  }

  /** A list is produced exactly when every matching edge's far endpoint exists. */
  lemma ListDefined(edges: seq<Edge>, users: set<nat>, u: nat, dir: Direction, c: bool)
    ensures ListOf(edges, users, u, dir, c).Ok?
        <==> forall e :: e in edges && Matches(e, u, dir, c) ==> Far(e, dir) in users
    ensures ListOf(edges, users, u, dir, c).Err? ==> ListOf(edges, users, u, dir, c).error == RecordNotFound
  {
    var rows := Select(edges, u, dir, c);
    if !ListOf(edges, users, u, dir, c).Ok? {
      var i :| 0 <= i < |rows| && Ends(rows, dir)[i] !in users;
      assert rows[i] in rows;
    } else {
      forall e | e in edges && Matches(e, u, dir, c) ensures Far(e, dir) in users {
        assert e in rows;
        var i :| 0 <= i < |rows| && rows[i] == e;
        assert Ends(rows, dir)[i] == Far(e, dir);
      }
    }
  }

  /** `x` is in the list exactly when the store holds the edge that puts it there. */
  lemma ListMembers(edges: seq<Edge>, users: set<nat>, u: nat, dir: Direction, c: bool, x: nat)
    requires ListOf(edges, users, u, dir, c).Ok?
    ensures x in ListOf(edges, users, u, dir, c).value <==> Pair(u, x, dir, c) in edges
  {
    var rows := Select(edges, u, dir, c);
    var ids := ListOf(edges, users, u, dir, c).value;
    assert ids == Ends(rows, dir);
    if x in ids {
      var i :| 0 <= i < |ids| && ids[i] == x;
      assert rows[i] in rows;
      match dir
      case Outgoing => assert rows[i] == Edge(u, x, c);
      case Incoming => assert rows[i] == Edge(x, u, c);
    }
    if Pair(u, x, dir, c) in edges {
      var e := Pair(u, x, dir, c);
      assert e in rows;
      var i :| 0 <= i < |rows| && rows[i] == e;
      assert ids[i] == x;
    }
  }

  /** The list has one entry per matching edge. */
  lemma ListLength(edges: seq<Edge>, users: set<nat>, u: nat, dir: Direction, c: bool)
    requires ListOf(edges, users, u, dir, c).Ok?
    ensures |ListOf(edges, users, u, dir, c).value| == Count(edges, u, dir, c)
  {
    SelectCount(edges, u, dir, c);
  }

  /**
   * The pending and the confirmed list of one direction split the
   * association: together they are as long as it is.
   */
  lemma PendingConfirmedSplit(edges: seq<Edge>, users: set<nat>, u: nat, dir: Direction)
    requires ListOf(edges, users, u, dir, false).Ok? && ListOf(edges, users, u, dir, true).Ok?
    ensures |ListOf(edges, users, u, dir, false).value| + |ListOf(edges, users, u, dir, true).value|
         == Degree(edges, u, dir)
  {
    ListLength(edges, users, u, dir, false);
    ListLength(edges, users, u, dir, true);
    CountSplit(edges, u, dir);
  }

  /** Appending a row to the store appends its far endpoint to the one list it matches. */
  lemma ListSnoc(edges: seq<Edge>, users: set<nat>, x: Edge, u: nat, dir: Direction, c: bool)
    ensures !Matches(x, u, dir, c) ==> ListOf(edges + [x], users, u, dir, c) == ListOf(edges, users, u, dir, c)
    ensures Matches(x, u, dir, c) && Far(x, dir) in users && ListOf(edges, users, u, dir, c).Ok? ==>
      ListOf(edges + [x], users, u, dir, c) == Ok(ListOf(edges, users, u, dir, c).value + [Far(x, dir)])
  {
    SelectSnoc(edges, x, u, dir, c);
    var rows := Select(edges, u, dir, c);
    if Matches(x, u, dir, c) {
      assert Ends(rows + [x], dir) == Ends(rows, dir) + [Far(x, dir)];
    } else {
      assert rows + [] == rows;
    }
  }

  /** `friends` is the plain concatenation of the two confirmed lists, duplicates kept. */
  lemma FriendsConcat(edges: seq<Edge>, users: set<nat>, u: nat)
    ensures FriendsOf(edges, users, u).Ok?
        <==> ListOf(edges, users, u, Outgoing, true).Ok? && ListOf(edges, users, u, Incoming, true).Ok?
    ensures FriendsOf(edges, users, u).Ok? ==>
      FriendsOf(edges, users, u).value
        == ListOf(edges, users, u, Outgoing, true).value + ListOf(edges, users, u, Incoming, true).value
    ensures FriendsOf(edges, users, u).Ok? ==>
      |FriendsOf(edges, users, u).value|
        == Count(edges, u, Outgoing, true) + Count(edges, u, Incoming, true)
  {
    if FriendsOf(edges, users, u).Ok? {
      ListLength(edges, users, u, Outgoing, true);
      ListLength(edges, users, u, Incoming, true);
    }
  }

  /**
   * One confirmed edge `u -> v` makes `u` and `v` friends of each other;
   * no reciprocal edge is needed.
   */
  lemma ConfirmedEdgeMakesFriends(edges: seq<Edge>, users: set<nat>, u: nat, v: nat)
    requires Edge(u, v, true) in edges
    ensures FriendsOf(edges, users, u).Ok? ==> v in FriendsOf(edges, users, u).value
    ensures FriendsOf(edges, users, v).Ok? ==> u in FriendsOf(edges, users, v).value
  {
    if FriendsOf(edges, users, u).Ok? {
      ListMembers(edges, users, u, Outgoing, true, v);
    }
    if FriendsOf(edges, users, v).Ok? {
      ListMembers(edges, users, v, Incoming, true, u);
    }
  }

  /** `x` is a friend of `u` exactly when a confirmed edge joins them, in either direction. */
  lemma FriendsMembers(edges: seq<Edge>, users: set<nat>, u: nat, x: nat)
    requires FriendsOf(edges, users, u).Ok?
    ensures x in FriendsOf(edges, users, u).value <==> Edge(u, x, true) in edges || Edge(x, u, true) in edges
  {
    ListMembers(edges, users, u, Outgoing, true, x);
    ListMembers(edges, users, u, Incoming, true, x);
  }

  /** In a store whose every edge joins existing users, no list or `friends` call raises. */
  lemma ConsistentStoreLists(edges: seq<Edge>, users: set<nat>, u: nat)
    requires forall e :: e in edges ==> e.userId in users && e.friendId in users
    ensures forall dir: Direction, c: bool :: ListOf(edges, users, u, dir, c).Ok?
    ensures FriendsOf(edges, users, u).Ok?
  {
  }

  /**
   * The store the model's tests set up: `user` (1) has a confirmed edge to
   * `user2` (2) and a pending one to `user3` (3); each list has one entry.
   */
  lemma FixtureLists(edges: seq<Edge>, users: set<nat>)
    requires edges == [Edge(1, 2, true), Edge(1, 3, false)] && users == {1, 2, 3}
    ensures ListOf(edges, users, 1, Outgoing, true) == Ok([2])
    ensures ListOf(edges, users, 1, Outgoing, false) == Ok([3])
    ensures ListOf(edges, users, 2, Incoming, true) == Ok([1])
    ensures ListOf(edges, users, 3, Incoming, false) == Ok([1])
    ensures FriendsOf(edges, users, 1) == Ok([2])
    ensures FriendsOf(edges, users, 2) == Ok([1])
  {
    var e1, e2 := Edge(1, 2, true), Edge(1, 3, false);
    assert edges == [e1] + [e2] && [e1] == [] + [e1];
    SelectSnoc([], e1, 1, Outgoing, true);
    SelectSnoc([e1], e2, 1, Outgoing, true);
    SelectSnoc([], e1, 1, Outgoing, false);
    SelectSnoc([e1], e2, 1, Outgoing, false);
    SelectSnoc([], e1, 2, Incoming, true);
    SelectSnoc([e1], e2, 2, Incoming, true);
    SelectSnoc([], e1, 3, Incoming, false);
    SelectSnoc([e1], e2, 3, Incoming, false);
    SelectSnoc([], e1, 1, Incoming, true);
    SelectSnoc([e1], e2, 1, Incoming, true);
    SelectSnoc([], e1, 2, Outgoing, true);
    SelectSnoc([e1], e2, 2, Outgoing, true);
    assert Select(edges, 1, Outgoing, true) == [e1];
    assert Select(edges, 2, Incoming, true) == [e1];
    assert Select(edges, 1, Outgoing, false) == [e2];
    assert Select(edges, 3, Incoming, false) == [e2];
    assert Ends([e1], Outgoing) == [2] && Ends([e1], Incoming) == [1];
    assert Ends([e2], Outgoing) == [3] && Ends([e2], Incoming) == [1];
    assert Select(edges, 1, Incoming, true) == [] && Select(edges, 2, Outgoing, true) == [];
    assert Ends([], Incoming) == [] && Ends([], Outgoing) == [];
    assert [2] + [] == [2] && [] + [1] == [1];
  }

  /** The lists after user 1 has asked users 2 and 3, before any answer. */
  lemma TwoRequestLists(edges: seq<Edge>, users: set<nat>)
    requires edges == [Edge(1, 2, false), Edge(1, 3, false)] && users == {1, 2, 3}
    ensures ListOf(edges, users, 1, Outgoing, false) == Ok([2, 3])
    ensures ListOf(edges, users, 2, Incoming, false) == Ok([1])
    ensures FriendsOf(edges, users, 1) == Ok([])
  {
    var e1, e2 := Edge(1, 2, false), Edge(1, 3, false);
    assert edges == [e1] + [e2] && [e1] == [] + [e1];
    SelectSnoc([], e1, 1, Outgoing, false);
    SelectSnoc([e1], e2, 1, Outgoing, false);
    SelectSnoc([], e1, 2, Incoming, false);
    SelectSnoc([e1], e2, 2, Incoming, false);
    SelectSnoc([], e1, 1, Outgoing, true);
    SelectSnoc([e1], e2, 1, Outgoing, true);
    SelectSnoc([], e1, 1, Incoming, true);
    SelectSnoc([e1], e2, 1, Incoming, true);
    assert Ends([e1, e2], Outgoing) == [2, 3];
    assert Select(edges, 2, Incoming, false) == [e1];
    assert Ends([e1], Incoming) == [1];
  }

  // ----- Validations: a password needs at least 6 characters; a name must
  // be present (not blank) and 2 to 50 characters long.

  /** The messages Rails attaches: "can't be blank", "is too short (minimum is n characters)", "is too long (...)". */
  datatype ValidationError = Blank | TooShort(minimum: nat) | TooLong(maximum: nat)

  /** Ruby's `[[:space:]]` on a Unicode string: the White_Space characters. */
  predicate IsSpace(ch: char) {
    var n := ch as int;
    (0x09 <= n <= 0x0D) || n == 0x20 || n == 0x85 || n == 0xA0 || n == 0x1680
    || (0x2000 <= n <= 0x200A) || n == 0x2028 || n == 0x2029 || n == 0x202F
    || n == 0x205F || n == 0x3000
  }

  /** `blank?` on a string: empty or whitespace only. */
  predicate IsBlank(s: string) {
    forall i :: 0 <= i < |s| ==> IsSpace(s[i])
  }

  /** The errors `valid?` puts on `name`: presence first, then length. */
  function NameErrors(name: string): set<ValidationError> {
    (if IsBlank(name) then {Blank} else {})
    + (if |name| < 2 then {TooShort(2)} else {})
    + (if |name| > 50 then {TooLong(50)} else {})
  }

  /** The errors `valid?` puts on `password` from the length rule. */
  function PasswordErrors(password: string): set<ValidationError> {
    if |password| < 6 then {TooShort(6)} else {}
  }

  /** A name passes exactly when it holds a non-space character and has 2 to 50 characters. */
  lemma NameValidity(name: string)
    ensures NameErrors(name) == {} <==> (exists i :: 0 <= i < |name| && !IsSpace(name[i])) && 2 <= |name| <= 50
    ensures |NameErrors(name)| <= 2
  {
  }

  /** A password passes exactly when it has at least 6 characters. */
  lemma PasswordValidity(password: string)
    ensures PasswordErrors(password) == {} <==> |password| >= 6
    ensures PasswordErrors(password) != {} ==> PasswordErrors(password) == {TooShort(6)}
  {
  }

  /** The name cases the model's tests exercise. */
  lemma NameExamples()
    ensures Blank in NameErrors("") && TooShort(2) in NameErrors("")
    ensures NameErrors("a") == {TooShort(2)}
    ensures TooLong(50) in NameErrors(seq(51, _ => 'a'))
    ensures NameErrors("  ") == {Blank}
    ensures NameErrors("john") == {}
  {
    assert !IsSpace("a"[0]);
    assert !IsSpace(seq(51, _ => 'a')[0]);
    assert !IsSpace("john"[0]);
  }

  /** The password cases the model's tests exercise. */
  lemma PasswordExamples()
    ensures PasswordErrors("pass") == {TooShort(6)}
    ensures TooShort(6) in PasswordErrors("")
    ensures PasswordErrors("password") == {}
  {
  }
}
