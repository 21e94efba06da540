/** SubscriptionService: the subscribe / cancel toggle and the explicit accept,
    over the subscription table (a map from (userId, subscriberId) to `accepted`). */
module Subscriptions {
  import opened Wrappers
  import opened Entities
  import opened Users
  import opened Store

  const SelfSubscription := "You can't subscribe yourself"
  /** A single-result repository query that matched more than one row. */
  const NonUniqueResult := Failure(IncorrectResultSize, "query did not return a unique result")
  /** `Optional.get()` on an empty Optional. */
  const NoValuePresent := Failure(NoSuchElement, "No value present")

  function SubscribedStatus(username: string): string { "you subscriber " + username + " now" }
  function CanceledStatus(username: string): string { "canceled subscription on " + username }
  function AcceptedStatus(username: string): string { "accepted subscription for " + username }

  /** What a call returns and the subscription table it leaves behind. */
  datatype Transition = Transition(status: Result<string>, edges: Edges)

  /** Answer of the single-result query `findByUser`. */
  datatype EdgeLookup = NoEdge | OneEdge(key: SubscriptionId) | SeveralEdges

  /** The keys of the edges whose followed user is `userId`. */
  function EdgesInto(edges: Edges, userId: int): set<SubscriptionId>
  {
    set k | k in edges && k.userId == userId
  }

  lemma OneElement(s: set<SubscriptionId>)
    requires |s| == 1
    ensures forall a, b :: a in s && b in s ==> a == b
  {
    forall a, b | a in s && b in s
      ensures a == b
    {
      assert |s - {a}| == 0;
      assert b in s - {a} || b == a;
    }
  }

  /** `SubscriptionRepository.findByUser`: the one edge into `userId`, whatever
      its subscriber; several matches make the query fail. */
  function FindByUser(edges: Edges, userId: int): (r: EdgeLookup)
    ensures r == NoEdge <==> EdgesInto(edges, userId) == {}
    ensures r.OneEdge? <==> |EdgesInto(edges, userId)| == 1
    ensures r.OneEdge? ==> EdgesInto(edges, userId) == {r.key}
  {
    var found := EdgesInto(edges, userId);
    if |found| == 0 then NoEdge
    else if |found| == 1 then
      OneElement(found);
      var k :| k in found;
      OneEdge(k)
    else SeveralEdges
  }

  lemma OnlyEdgeInto(edges: Edges, userId: int, key: SubscriptionId)
    requires EdgesInto(edges, userId) == {key}
    ensures key in edges && key.userId == userId
    ensures forall k :: k in edges && k != key ==> k.userId != userId
  {
    assert key in EdgesInto(edges, userId);
    forall k | k in edges && k != key
      ensures k.userId != userId
    {
      assert k.userId == userId ==> k in EdgesInto(edges, userId);
    }
  }

  /** Both the target name and the principal resolve to users. */
  predicate Resolved(users: seq<User>, principal: string, username: string)
  {
    FindByUsername(users, username).Some? && FindByUsername(users, principal).Some?
  }

  /** Id of the user with the given name. */
  function IdOf(users: seq<User>, name: string): int
    requires FindByUsername(users, name).Some?
  {
    FindByUsername(users, name).value.id
  }

  /** `changeSub(username)` called by `principal`. */
  function ChangeSubscription(users: seq<User>, edges: Edges, principal: string, username: string): (t: Transition)
    // one transaction: a failure writes nothing
    ensures t.status.Err? ==> t.edges == edges
    // the toggle never accepts an edge
    ensures forall k :: IsAccepted(t.edges, k) ==> IsAccepted(edges, k)
    // the target is looked up first, then the principal
    ensures FindByUsername(users, username).None? ==> t.status == Err(UserNotFound)
    ensures FindByUsername(users, username).Some? && FindByUsername(users, principal).None? ==>
      t.status == Err(SomethingWrong)
    // subscribing to oneself is refused without touching the table
    ensures Resolved(users, principal, username) && principal == username ==>
      t == Transition(Ok(SelfSubscription), edges)
    // more than one edge into the target: the single-result query fails
    ensures (Resolved(users, principal, username) && principal != username &&
             |EdgesInto(edges, IdOf(users, username))| > 1) ==>
      t.status == Err(NonUniqueResult)
    // subscribe: no edge into the target, so exactly one pending edge
    // (target, actor) is inserted and nothing else changes
    ensures (Resolved(users, principal, username) && principal != username &&
             EdgesInto(edges, IdOf(users, username)) == {}) ==>
        && SubscriptionId(IdOf(users, username), IdOf(users, principal)) !in edges
        && t == Transition(Ok(SubscribedStatus(username)),
                           edges[SubscriptionId(IdOf(users, username), IdOf(users, principal)) := false])
    // cancel: the one edge into the target is deleted whoever its subscriber
    // is; the edge into the actor, if there is one, is demoted; no key is added
    ensures (Resolved(users, principal, username) && principal != username &&
             |EdgesInto(edges, IdOf(users, username))| == 1) ==>
        var gone := FindByUser(edges, IdOf(users, username)).key;
        && (t.status.Ok? <==> |EdgesInto(edges - {gone}, IdOf(users, principal))| <= 1)
        && (t.status.Err? ==> t.status == Err(NonUniqueResult))
        && (t.status.Ok? ==> t.status.value == CanceledStatus(username) && t.edges.Keys == edges.Keys - {gone})
    ensures (Resolved(users, principal, username) && principal != username &&
             |EdgesInto(edges, IdOf(users, username))| == 1 && t.status.Ok?) ==>
        forall k :: k in t.edges ==> t.edges[k] == (edges[k] && k.userId != IdOf(users, principal))
  {
    match FindByUsername(users, username)
    case None => Transition(Err(UserNotFound), edges)
    case Some(target) =>
      match GetCurrentAuthUser(users, principal)
      case Err(e) => Transition(Err(e), edges)
      case Ok(actor) =>
        if actor.username == target.username then Transition(Ok(SelfSubscription), edges)
        else
          match FindByUser(edges, target.id)
          case SeveralEdges => Transition(Err(NonUniqueResult), edges)
          case NoEdge =>
            assert SubscriptionId(target.id, actor.id) !in EdgesInto(edges, target.id);
            Transition(Ok(SubscribedStatus(username)), edges[SubscriptionId(target.id, actor.id) := false])
          case OneEdge(gone) =>
            // the delete is flushed before the second query runs
            var remaining := edges - {gone};
            match FindByUser(remaining, actor.id)
            case SeveralEdges => Transition(Err(NonUniqueResult), edges)
            case NoEdge => Transition(Ok(CanceledStatus(username)), remaining)
            case OneEdge(inverse) =>
              OnlyEdgeInto(remaining, actor.id, inverse);
              Transition(Ok(CanceledStatus(username)), remaining[inverse := false])
  }

  /** `acceptSubscription(subscriberUsername)` called by `principal`: the edge
      (principal, subscriber) must exist; it is accepted and the reverse edge is
      written as accepted too. */
  function AcceptSubscription(users: seq<User>, edges: Edges, principal: string, subscriberUsername: string): (t: Transition)
    ensures t.status.Err? ==> t.edges == edges
    // the principal is resolved first, then the named subscriber, then the edge
    ensures FindByUsername(users, principal).None? ==> t.status == Err(SomethingWrong)
    ensures FindByUsername(users, principal).Some? && FindByUsername(users, subscriberUsername).None? ==>
      t.status == Err(UserNotFound)
    ensures (Resolved(users, principal, subscriberUsername) &&
             SubscriptionId(IdOf(users, principal), IdOf(users, subscriberUsername)) !in edges) ==>
      t.status == Err(NoValuePresent)
    ensures t.status.Ok? <==>
      Resolved(users, principal, subscriberUsername) &&
      SubscriptionId(IdOf(users, principal), IdOf(users, subscriberUsername)) in edges
    // both directions end up accepted; the reverse edge is the only key that
    // may be new, and every other edge keeps its flag
    ensures t.status.Ok? ==>
      var forward := SubscriptionId(IdOf(users, principal), IdOf(users, subscriberUsername));
      var reverse := SubscriptionId(IdOf(users, subscriberUsername), IdOf(users, principal));
      && t.status.value == AcceptedStatus(subscriberUsername)
      && IsAccepted(t.edges, forward) && IsAccepted(t.edges, reverse)
      && t.edges.Keys == edges.Keys + {reverse}
    ensures t.status.Ok? ==> forall k ::
      (&& k in edges
       && k != SubscriptionId(IdOf(users, principal), IdOf(users, subscriberUsername))
       && k != SubscriptionId(IdOf(users, subscriberUsername), IdOf(users, principal)))
      ==> t.edges[k] == edges[k]
  {
    match GetCurrentAuthUser(users, principal)
    case Err(e) => Transition(Err(e), edges)
    case Ok(user) =>
      match FindByUsername(users, subscriberUsername)
      case None => Transition(Err(UserNotFound), edges)
      case Some(subscriber) =>
        var id := SubscriptionId(user.id, subscriber.id);
        if id !in edges then Transition(Err(NoValuePresent), edges)
        else
          var accepted := edges[id := true];
          Transition(Ok(AcceptedStatus(subscriberUsername)), accepted[SubscriptionId(subscriber.id, user.id) := true])
  }

  lemma ChangeSubscriptionKeepsEdgesRegistered(users: seq<User>, edges: Edges, principal: string, username: string)
    requires EdgesRegistered(users, edges)
    ensures EdgesRegistered(users, ChangeSubscription(users, edges, principal, username).edges)
  {
    if Resolved(users, principal, username) {
      assert IdOf(users, username) in UserIds(users);
      assert IdOf(users, principal) in UserIds(users);
    }
  }

  lemma AcceptSubscriptionKeepsEdgesRegistered(users: seq<User>, edges: Edges, principal: string, subscriberUsername: string)
    requires EdgesRegistered(users, edges)
    ensures EdgesRegistered(users, AcceptSubscription(users, edges, principal, subscriberUsername).edges)
  {
    if Resolved(users, principal, subscriberUsername) {
      assert IdOf(users, subscriberUsername) in UserIds(users);
      assert IdOf(users, principal) in UserIds(users);
    }
  }

  /** The service entry point: runs `changeSub` against the store. */
  method ChangeSub(db: Database, principal: string, username: string) returns (status: Result<string>)
    requires db.Valid()
    modifies db`edges
    ensures db.Valid()
    ensures Transition(status, db.edges) == ChangeSubscription(db.users, old(db.edges), principal, username)
  {
    ChangeSubscriptionKeepsEdgesRegistered(db.users, db.edges, principal, username);
    var user := FindByUsername(db.users, username);
    if user.None? {
      return Err(UserNotFound);
    }
    var subscriber := GetCurrentAuthUser(db.users, principal);
    if subscriber.Err? {
      return Err(subscriber.error);
    }
    if subscriber.value.username == user.value.username {
      return Ok(SelfSubscription);
    }
    var sub := FindByUser(db.edges, user.value.id);
    match sub {
      case SeveralEdges =>
        return Err(NonUniqueResult);
      case OneEdge(gone) =>
        var before := db.edges;
        db.edges := db.edges - {gone};
        // they may have been friends
        var inverse := FindByUser(db.edges, subscriber.value.id);
        match inverse {
          case SeveralEdges =>
            db.edges := before;  // the transaction rolls back the delete
            return Err(NonUniqueResult);
          case OneEdge(k) =>
            db.edges := db.edges[k := false];
          case NoEdge =>
        }
        return Ok(CanceledStatus(username));
      case NoEdge =>
        db.edges := db.edges[SubscriptionId(user.value.id, subscriber.value.id) := false];
        return Ok(SubscribedStatus(username));
    }
  }

  /** The service entry point: runs `acceptSubscription` against the store. */
  method AcceptSub(db: Database, principal: string, subscriberUsername: string) returns (status: Result<string>)
    requires db.Valid()
    modifies db`edges
    ensures db.Valid()
    ensures Transition(status, db.edges) == AcceptSubscription(db.users, old(db.edges), principal, subscriberUsername)
  {
    AcceptSubscriptionKeepsEdgesRegistered(db.users, db.edges, principal, subscriberUsername);
    var user := GetCurrentAuthUser(db.users, principal);
    if user.Err? {
      return Err(user.error);
    }
    var subscriber := FindByUsername(db.users, subscriberUsername);
    if subscriber.None? {
      return Err(UserNotFound);
    }
    var id := SubscriptionId(user.value.id, subscriber.value.id);
    if id !in db.edges {
      return Err(NoValuePresent);
    }
    var accepted := db.edges[id := true];
    db.edges := accepted[SubscriptionId(subscriber.value.id, user.value.id) := true];
    return Ok(AcceptedStatus(subscriberUsername));
  }

  /** Two users with different names have different ids. */
  lemma IdsDiffer(users: seq<User>, principal: string, username: string)
    requires UsersValid(users)
    requires Resolved(users, principal, username) && principal != username
    ensures IdOf(users, principal) != IdOf(users, username)
  {
    LookupsAreExact(users, FindByUsername(users, username).value);
    LookupsAreExact(users, FindByUsername(users, principal).value);
  }

  /** The second toggle, on the table the first one left: the pending edge
      the first inserted is the one edge into the target, so it is deleted. */
  lemma SecondToggleCancels(users: seq<User>, edges: Edges, principal: string, username: string)
    requires UsersValid(users)
    requires Resolved(users, principal, username) && principal != username
    requires EdgesInto(edges, IdOf(users, username)) == {}
    requires |EdgesInto(edges, IdOf(users, principal))| <= 1
    ensures var pending := edges[SubscriptionId(IdOf(users, username), IdOf(users, principal)) := false];
      var second := ChangeSubscription(users, pending, principal, username);
      && second.status == Ok(CanceledStatus(username))
      && second.edges.Keys == edges.Keys
      && forall k :: k in second.edges ==> second.edges[k] == (edges[k] && k.userId != IdOf(users, principal))
  {
    var targetId := IdOf(users, username);
    var key := SubscriptionId(targetId, IdOf(users, principal));
    var pending := edges[key := false];
    IdsDiffer(users, principal, username);
    assert key !in edges by {
      assert key in edges ==> key in EdgesInto(edges, targetId);
    }
    assert EdgesInto(pending, targetId) == {key};
    assert pending - {key} == edges;
  }

  /** A toggle followed by a second toggle on the same target, when no one
      followed the target before, leaves every key as it was; the only trace
      is that the edge into the actor, if any, is no longer accepted. */
  lemma ToggleTwiceUndoes(users: seq<User>, edges: Edges, principal: string, username: string)
    requires UsersValid(users)
    requires Resolved(users, principal, username) && principal != username
    requires EdgesInto(edges, IdOf(users, username)) == {}
    requires |EdgesInto(edges, IdOf(users, principal))| <= 1
    ensures var first := ChangeSubscription(users, edges, principal, username);
      var second := ChangeSubscription(users, first.edges, principal, username);
      && first.status == Ok(SubscribedStatus(username))
      && second.status == Ok(CanceledStatus(username))
      && second.edges.Keys == edges.Keys
    ensures var first := ChangeSubscription(users, edges, principal, username);
      var second := ChangeSubscription(users, first.edges, principal, username);
      forall k :: k in second.edges ==> second.edges[k] == (edges[k] && k.userId != IdOf(users, principal))
  {
    SecondToggleCancels(users, edges, principal, username);
  }

  /** After a successful accept, each of the two users is in the other's
      friends list. */
  lemma AcceptMakesMutualFriends(users: seq<User>, edges: Edges, principal: string, subscriberUsername: string)
    requires AcceptSubscription(users, edges, principal, subscriberUsername).status.Ok?
    ensures var after := AcceptSubscription(users, edges, principal, subscriberUsername).edges;
      && FindByUsername(users, subscriberUsername).Some?
      && FindByUsername(users, principal).Some?
      && FindByUsername(users, subscriberUsername).value in FindFriendsByUsername(users, after, principal).value
      && FindByUsername(users, principal).value in FindFriendsByUsername(users, after, subscriberUsername).value
  {
  }

  /** `changeSub` looks up the edge into the target by the followed user only:
      with alice, bob and carol registered and only carol following bob, alice
      toggling bob deletes carol's edge and reports a cancellation. */
  lemma CancelDeletesAnotherSubscribersEdge()
    ensures var alice := User(1, "alice", "alice@mail.com", "a", {"ROLE_USER"});
      var bob := User(2, "bob", "bob@mail.com", "b", {"ROLE_USER"});
      var carol := User(3, "carol", "carol@mail.com", "c", {"ROLE_USER"});
      var edges := map[SubscriptionId(2, 3) := false];
      ChangeSubscription([alice, bob, carol], edges, "alice", "bob")
        == Transition(Ok(CanceledStatus("bob")), map[])
  {
    var alice := User(1, "alice", "alice@mail.com", "a", {"ROLE_USER"});
    var bob := User(2, "bob", "bob@mail.com", "b", {"ROLE_USER"});
    var carol := User(3, "carol", "carol@mail.com", "c", {"ROLE_USER"});
    var users := [alice, bob, carol];
    var edges := map[SubscriptionId(2, 3) := false];
    assert FindByUsername(users, "bob") == Some(bob);
    assert FindByUsername(users, "alice") == Some(alice);
    assert EdgesInto(edges, 2) == {SubscriptionId(2, 3)};
    var remaining := edges - {SubscriptionId(2, 3)};
    assert remaining == map[];
    assert EdgesInto(remaining, 1) == {};
  }
}
