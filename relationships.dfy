/**
 * The relationship engine: the Friendship and FriendRequest tables and the four views that change
 * them (SendFriendRequestView, AcceptFriendRequestView, DeclineFriendRequestView, RemoveFriendView),
 * each as a function from the old tables to its outcome and the new tables, plus the two listings
 * of FriendshipViewSet and FriendRequestViewSet.
 *
 * Both tables are sets of ordered pairs, so the unique_together constraints on (user, friend) and
 * (from_user, to_user) hold by construction; what is proved is that no view ever inserts a row
 * that is already there, which is what keeps a database from raising on that constraint.
 */
module Relationships {
  import opened Base

  /** The Friendship rows (user, friend) and the FriendRequest rows (from_user, to_user). */
  datatype Graph = Graph(friends: set<Pair>, requests: set<Pair>)

  /** What a view reports together with the tables it leaves behind. */
  datatype Step = Step(outcome: Outcome, graph: Graph)

  /** (A, B) is a Friendship row exactly when (B, A) is. */
  predicate Symmetric(rows: set<Pair>)
  {
    forall p | p in rows :: (p.1, p.0) in rows
  }

  predicate Irreflexive(rows: set<Pair>)
  {
    forall p | p in rows :: p.0 != p.1
  }

  /** Every row refers to existing users (the foreign keys). */
  predicate Within(rows: set<Pair>, ids: set<UserId>)
  {
    forall p | p in rows :: p.0 in ids && p.1 in ids
  }

  /** The invariant the views keep: symmetric friendships, nobody befriends or asks themselves, no dangling keys. */
  predicate Valid(g: Graph, ids: set<UserId>)
  {
    && Symmetric(g.friends)
    && Irreflexive(g.friends)
    && Irreflexive(g.requests)
    && Within(g.friends, ids)
    && Within(g.requests, ids)
  }

  /** A Friendship row exists in either direction. */
  predicate AreFriends(rows: set<Pair>, a: UserId, b: UserId)
  {
    (a, b) in rows || (b, a) in rows
  }

  /**
   * SendFriendRequestView: the target must exist and differ from the caller, and the two must not
   * be friends in either direction; then get-or-create of the (caller, target) request.
   * A pending (target, caller) request does not stand in the way.
   */
  function SendRequest(g: Graph, ids: set<UserId>, caller: UserId, target: UserId): (s: Step)
    ensures s.outcome.Err? ==> s.graph == g
    ensures target !in ids ==> s.outcome == Err(UserNotFound)
    ensures target in ids && caller == target ==> s.outcome == Err(SelfTarget)
    ensures target in ids && caller != target && AreFriends(g.friends, caller, target) ==>
      s.outcome == Err(AlreadyFriends)
    ensures !s.outcome.Err? <==> target in ids && caller != target && !AreFriends(g.friends, caller, target)
    ensures !s.outcome.Err? ==>
      && (s.outcome == Created <==> (caller, target) !in g.requests)
      && (s.outcome == Created || s.outcome == Exists)
      && s.graph == Graph(g.friends, g.requests + {(caller, target)})
  {
    if target !in ids then Step(Err(UserNotFound), g)
    else if caller == target then Step(Err(SelfTarget), g)
    else if AreFriends(g.friends, caller, target) then Step(Err(AlreadyFriends), g)
    else if (caller, target) in g.requests then Step(Exists, g)
    else Step(Created, g.(requests := g.requests + {(caller, target)}))
  }

  /**
   * AcceptFriendRequestView: the sender must exist and differ from the caller, their request to
   * the caller must exist, and no friendship may exist in either direction; then both symmetric
   * rows are inserted and that one request is deleted.
   */
  function AcceptRequest(g: Graph, ids: set<UserId>, caller: UserId, from: UserId): (s: Step)
    ensures s.outcome.Err? ==> s.graph == g
    ensures s.outcome == Ok || s.outcome.Err?
    ensures from !in ids ==> s.outcome == Err(UserNotFound)
    ensures from in ids && caller == from ==> s.outcome == Err(SelfTarget)
    ensures from in ids && caller != from && (from, caller) !in g.requests ==> s.outcome == Err(RequestNotFound)
    ensures from in ids && caller != from && (from, caller) in g.requests && AreFriends(g.friends, caller, from) ==>
      s.outcome == Err(AlreadyFriends)
    ensures s.outcome == Ok <==>
      from in ids && caller != from && (from, caller) in g.requests && !AreFriends(g.friends, caller, from)
    ensures s.outcome == Ok ==>
      && s.graph.friends == g.friends + {(caller, from), (from, caller)}
      && s.graph.requests == g.requests - {(from, caller)}
  {
    if from !in ids then Step(Err(UserNotFound), g)
    else if caller == from then Step(Err(SelfTarget), g)
    else if (from, caller) !in g.requests then Step(Err(RequestNotFound), g)
    else if AreFriends(g.friends, caller, from) then Step(Err(AlreadyFriends), g)
    else Step(Ok, Graph(g.friends + {(caller, from)} + {(from, caller)}, g.requests - {(from, caller)}))
  }

  /** DeclineFriendRequestView: the sender must exist and their request to the caller must exist; it is deleted. */
  function DeclineRequest(g: Graph, ids: set<UserId>, caller: UserId, from: UserId): (s: Step)
    ensures s.outcome.Err? ==> s.graph == g
    ensures s.outcome == Ok || s.outcome.Err?
    ensures from !in ids ==> s.outcome == Err(UserNotFound)
    ensures from in ids && (from, caller) !in g.requests ==> s.outcome == Err(RequestNotFound)
    ensures s.outcome == Ok <==> from in ids && (from, caller) in g.requests
    ensures s.outcome == Ok ==> s.graph == Graph(g.friends, g.requests - {(from, caller)})
  {
    if from !in ids then Step(Err(UserNotFound), g)
    else if (from, caller) !in g.requests then Step(Err(RequestNotFound), g)
    else Step(Ok, g.(requests := g.requests - {(from, caller)}))
  }

  /**
   * RemoveFriendView: both directions are looked up independently and whichever exist are deleted;
   * it fails only when neither does.
   */
  function RemoveFriend(g: Graph, ids: set<UserId>, caller: UserId, friend: UserId): (s: Step)
    ensures s.outcome.Err? ==> s.graph == g
    ensures s.outcome == Ok || s.outcome.Err?
    ensures friend !in ids ==> s.outcome == Err(UserNotFound)
    ensures friend in ids && !AreFriends(g.friends, caller, friend) ==> s.outcome == Err(NotFriends)
    ensures s.outcome == Ok <==> friend in ids && AreFriends(g.friends, caller, friend)
    ensures s.outcome == Ok ==>
      && !AreFriends(s.graph.friends, caller, friend)
      && s.graph.requests == g.requests
      && s.graph.friends <= g.friends
      && forall p | p in g.friends && p != (caller, friend) && p != (friend, caller) :: p in s.graph.friends
  {
    if friend !in ids then Step(Err(UserNotFound), g)
    else
      var forward := (caller, friend) in g.friends;
      var backward := (friend, caller) in g.friends;
      if forward || backward then
        var f1 := if forward then g.friends - {(caller, friend)} else g.friends;
        var f2 := if backward then f1 - {(friend, caller)} else f1;
        Step(Ok, g.(friends := f2))
      else Step(Err(NotFriends), g)
  }

  // ---------------------------------------------------------------------------------------------
  // Invariants and the uniqueness constraints

  /** An accepted request inserts two rows that were not there, so the unique constraint is never hit. */
  lemma AcceptInsertsFreshRows(g: Graph, ids: set<UserId>, caller: UserId, from: UserId)
    requires AcceptRequest(g, ids, caller, from).outcome == Ok
    ensures var g' := AcceptRequest(g, ids, caller, from).graph;
      && (caller, from) !in g.friends && (from, caller) !in g.friends
      && |g'.friends| == |g.friends| + 2
      && |g'.requests| == |g.requests| - 1
  {
    var g' := AcceptRequest(g, ids, caller, from).graph;
    assert (caller, from) != (from, caller);
    assert g'.friends == (g.friends + {(caller, from)}) + {(from, caller)};
    assert |g.friends + {(caller, from)}| == |g.friends| + 1;
    assert g.requests == g'.requests + {(from, caller)};
  }

  /** A request sent afresh adds exactly one row that was not there. */
  lemma SendInsertsFreshRow(g: Graph, ids: set<UserId>, caller: UserId, target: UserId)
    requires SendRequest(g, ids, caller, target).outcome == Created
    ensures |SendRequest(g, ids, caller, target).graph.requests| == |g.requests| + 1
  {
  }

  lemma SendPreservesValid(g: Graph, ids: set<UserId>, caller: UserId, target: UserId)
    requires Valid(g, ids) && caller in ids
    ensures Valid(SendRequest(g, ids, caller, target).graph, ids)
  {
  }

  lemma AcceptPreservesValid(g: Graph, ids: set<UserId>, caller: UserId, from: UserId)
    requires Valid(g, ids) && caller in ids
    ensures Valid(AcceptRequest(g, ids, caller, from).graph, ids)
  {
  }

  lemma DeclinePreservesValid(g: Graph, ids: set<UserId>, caller: UserId, from: UserId)
    requires Valid(g, ids)
    ensures Valid(DeclineRequest(g, ids, caller, from).graph, ids)
  {
  }

  lemma RemovePreservesValid(g: Graph, ids: set<UserId>, caller: UserId, friend: UserId)
    requires Valid(g, ids)
    ensures Valid(RemoveFriend(g, ids, caller, friend).graph, ids)
  {
    var s := RemoveFriend(g, ids, caller, friend);
    if s.outcome == Ok {
      forall p | p in s.graph.friends
        ensures (p.1, p.0) in s.graph.friends
      {
        assert (p.1, p.0) in g.friends;
        assert (p.1, p.0) != (caller, friend) && (p.1, p.0) != (friend, caller);
      }
    }
  }

  /** On a symmetric table a successful removal deletes exactly the two rows of the pair. */
  lemma RemoveDeletesPair(g: Graph, ids: set<UserId>, caller: UserId, friend: UserId)
    requires Symmetric(g.friends)
    requires RemoveFriend(g, ids, caller, friend).outcome == Ok
    ensures (caller, friend) in g.friends && (friend, caller) in g.friends
    ensures RemoveFriend(g, ids, caller, friend).graph.friends == g.friends - {(caller, friend), (friend, caller)}
  {
  }

  // ---------------------------------------------------------------------------------------------
  // Sequences of views

  /** A request sent and then accepted leaves the friendship pair in place and the request gone. */
  lemma SendThenAccept(g: Graph, ids: set<UserId>, a: UserId, b: UserId)
    requires a in ids && b in ids && a != b && !AreFriends(g.friends, a, b)
    ensures var s1 := SendRequest(g, ids, a, b);
      var s2 := AcceptRequest(s1.graph, ids, b, a);
      && (s1.outcome == Created || s1.outcome == Exists)
      && s2.outcome == Ok
      && (a, b) in s2.graph.friends && (b, a) in s2.graph.friends
      && (a, b) !in s2.graph.requests
  {
  }

  /** Sending the same request twice reports that it exists and creates no second row. */
  lemma SendTwice(g: Graph, ids: set<UserId>, a: UserId, b: UserId)
    requires SendRequest(g, ids, a, b).outcome == Created
    ensures var g1 := SendRequest(g, ids, a, b).graph;
      SendRequest(g1, ids, a, b) == Step(Exists, g1)
  {
  }

  /** Accepting the same request twice leaves one friendship pair; the second attempt finds no request. */
  lemma AcceptTwice(g: Graph, ids: set<UserId>, a: UserId, from: UserId)
    requires AcceptRequest(g, ids, a, from).outcome == Ok
    ensures var g1 := AcceptRequest(g, ids, a, from).graph;
      AcceptRequest(g1, ids, a, from) == Step(Err(RequestNotFound), g1)
  {
  }

  /** Removing a friend twice: the second attempt reports that they are not friends. */
  lemma RemoveTwice(g: Graph, ids: set<UserId>, a: UserId, b: UserId)
    requires RemoveFriend(g, ids, a, b).outcome == Ok
    ensures var g1 := RemoveFriend(g, ids, a, b).graph;
      RemoveFriend(g1, ids, a, b) == Step(Err(NotFriends), g1)
  {
  }

  /** Removal undoes acceptance: the friendship table is what it was before the request was accepted. */
  lemma RemoveUndoesAccept(g: Graph, ids: set<UserId>, caller: UserId, from: UserId)
    requires AcceptRequest(g, ids, caller, from).outcome == Ok
    ensures var g1 := AcceptRequest(g, ids, caller, from).graph;
      var s2 := RemoveFriend(g1, ids, caller, from);
      s2.outcome == Ok && s2.graph.friends == g.friends
  {
    var g1 := AcceptRequest(g, ids, caller, from).graph;
    var s2 := RemoveFriend(g1, ids, caller, from);
    assert (caller, from) !in g.friends && (from, caller) !in g.friends;
    assert s2.graph.friends == g1.friends - {(caller, from)} - {(from, caller)};
  }

  // ---------------------------------------------------------------------------------------------
  // Listings

  /** The friends of `u`: the `friend` column of the rows whose `user` is `u`. */
  function FriendsOf(rows: set<Pair>, u: UserId): (r: set<UserId>)
    ensures forall f :: f in r <==> (u, f) in rows
  {
    set p | p in rows && p.0 == u :: p.1
  }

  /**
   * The listing of FriendshipViewSet.get_queryset and of FriendRequestViewSet.get_queryset: the
   * union of the rows whose first column is `u` and the rows whose second column is `u`.
   */
  function RowsOf(rows: set<Pair>, u: UserId): (r: set<Pair>)
    ensures forall p :: p in r <==> p in rows && (p.0 == u || p.1 == u)
  {
    (set p | p in rows && p.0 == u) + (set p | p in rows && p.1 == u)
  }

  /** On a symmetric table the listing holds both rows of every friendship of `u` and nothing else. */
  lemma FriendshipRowsArePairs(rows: set<Pair>, u: UserId)
    requires Symmetric(rows)
    ensures RowsOf(rows, u) ==
      (set f | f in FriendsOf(rows, u) :: (u, f)) + (set f | f in FriendsOf(rows, u) :: (f, u))
  {
    var lhs := RowsOf(rows, u);
    var rhs := (set f | f in FriendsOf(rows, u) :: (u, f)) + (set f | f in FriendsOf(rows, u) :: (f, u));
    forall p | p in lhs
      ensures p in rhs
    {
      if p.0 == u {
        assert p == (u, p.1);
      } else {
        assert (p.1, p.0) in rows;
        assert p == (p.0, u);
      }
    }
  }

  /** A request just sent is listed both for its sender and for its recipient. */
  lemma SentRequestIsListed(g: Graph, ids: set<UserId>, caller: UserId, target: UserId)
    requires !SendRequest(g, ids, caller, target).outcome.Err?
    ensures var rows := SendRequest(g, ids, caller, target).graph.requests;
      (caller, target) in RowsOf(rows, caller) && (caller, target) in RowsOf(rows, target)
  {
    var rows := SendRequest(g, ids, caller, target).graph.requests;
    assert (caller, target) in rows;
  }

  /** A declined request is listed for neither party. */
  lemma DeclinedRequestIsUnlisted(g: Graph, ids: set<UserId>, caller: UserId, from: UserId, u: UserId)
    requires DeclineRequest(g, ids, caller, from).outcome == Ok
    ensures (from, caller) !in RowsOf(DeclineRequest(g, ids, caller, from).graph.requests, u)
  {
  }
}
