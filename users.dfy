/** UserService: lookups over the user table and the friends query. */
module Users {
  import opened Wrappers
  import opened Entities

  /** The unique constraints of user_entity: id, username and email. */
  predicate UsersValid(users: seq<User>)
  {
    forall i, j :: 0 <= i < j < |users| ==>
      users[i].id != users[j].id && users[i].username != users[j].username && users[i].email != users[j].email
  }

  function UserIds(users: seq<User>): set<int>
  {
    set u | u in users :: u.id
  }

  /** `UserRepository.findById`. */
  function FindById(users: seq<User>, id: int): (r: Option<User>)
    ensures r.Some? ==> r.value in users && r.value.id == id
    ensures r.None? <==> forall u :: u in users ==> u.id != id
  {
    if |users| == 0 then None
    else if users[0].id == id then Some(users[0])
    else FindById(users[1..], id)
  }

  /** `UserRepository.findByUsername`. */
  function FindByUsername(users: seq<User>, username: string): (r: Option<User>)
    ensures r.Some? ==> r.value in users && r.value.username == username
    ensures r.None? <==> forall u :: u in users ==> u.username != username
  {
    if |users| == 0 then None
    else if users[0].username == username then Some(users[0])
    else FindByUsername(users[1..], username)
  }

  /** `UserRepository.findByEmail`. */
  function FindByEmail(users: seq<User>, email: string): (r: Option<User>)
    ensures r.Some? ==> r.value in users && r.value.email == email
    ensures r.None? <==> forall u :: u in users ==> u.email != email
  {
    if |users| == 0 then None
    else if users[0].email == email then Some(users[0])
    else FindByEmail(users[1..], email)
  }

  lemma UsersValidTail(users: seq<User>)
    requires UsersValid(users) && |users| > 0
    ensures UsersValid(users[1..])
    ensures forall u :: u in users[1..] ==>
      u.id != users[0].id && u.username != users[0].username && u.email != users[0].email
  {
    forall a, b | 0 <= a < b < |users[1..]|
      ensures users[1..][a].id != users[1..][b].id
    {
      assert users[1..][a] == users[a + 1] && users[1..][b] == users[b + 1];
    }
    forall u | u in users[1..]
      ensures u.id != users[0].id && u.username != users[0].username && u.email != users[0].email
    {
      var i :| 0 <= i < |users[1..]| && users[1..][i] == u;
      assert users[i + 1] == u;
    }
  }

  /** A new row whose id, username and email are all unused keeps the
      constraints, and every earlier id stays registered. */
  lemma UsersValidAppend(users: seq<User>, u: User)
    requires UsersValid(users)
    requires forall v :: v in users ==> v.id != u.id && v.username != u.username && v.email != u.email
    ensures UsersValid(users + [u])
    ensures UserIds(users + [u]) == UserIds(users) + {u.id}
  {
    var all := users + [u];
    forall i, j | 0 <= i < j < |all|
      ensures all[i].id != all[j].id && all[i].username != all[j].username && all[i].email != all[j].email
    {
      if j == |users| {
        assert all[i] in users;
      }
    }
  }

  /** On a table that keeps its unique constraints, each lookup returns the one
      user holding the key. */
  lemma {:induction false} LookupsAreExact(users: seq<User>, u: User)
    requires UsersValid(users)
    requires u in users
    ensures FindById(users, u.id) == Some(u)
    ensures FindByUsername(users, u.username) == Some(u)
    ensures FindByEmail(users, u.email) == Some(u)
  {
    if users[0] != u {
      UsersValidTail(users);
      assert u in users[1..];
      LookupsAreExact(users[1..], u);
    }
  }

  /** The `IllegalArgumentException` of a username that resolves to no user. */
  const UserNotFound := Failure(IllegalArgument, "user not found")

  /** What `getCurrentAuthUser` throws when the principal has no user row. */
  const SomethingWrong := Failure(IllegalArgument, "something wrong")

  /** The principal (the username in the security context) resolved to its
      user; the thread-local context is replaced by the `principal` argument. */
  function GetCurrentAuthUser(users: seq<User>, principal: string): (r: Result<User>)
    ensures r.Ok? ==> r.value in users && r.value.username == principal
    ensures r.Err? <==> forall u :: u in users ==> u.username != principal
    ensures r.Err? ==> r.error == SomethingWrong
  {
    match FindByUsername(users, principal)
    case Some(u) => Ok(u)
    case None => Err(SomethingWrong)
  }

  /** The edge `k` exists and is accepted. */
  predicate IsAccepted(edges: Edges, k: SubscriptionId)
  {
    k in edges && edges[k]
  }

  /** `SubscriptionRepository.findAllByUserAndAccepted(user, true)`: the keys of
      the accepted edges whose followed user is `userId`. */
  function FindAllByUserAndAccepted(edges: Edges, userId: int): set<SubscriptionId>
  {
    set k | k in edges && k.userId == userId && edges[k]
  }

  /** The subscribers named by `accepted` edges into `userId`, each resolved to
      its user row, in table order. */
  function Subscribers(users: seq<User>, accepted: set<SubscriptionId>, userId: int): (r: seq<User>)
    ensures forall f :: f in r <==> f in users && SubscriptionId(userId, f.id) in accepted
    ensures |r| <= |users|
  {
    if |users| == 0 then []
    else
      (if SubscriptionId(userId, users[0].id) in accepted then [users[0]] else [])
      + Subscribers(users[1..], accepted, userId)
  }

  /** `findFriendsByUsername`: the subscribers of the accepted edges into the named user. */
  function FindFriendsByUsername(users: seq<User>, edges: Edges, username: string): (r: Result<seq<User>>)
    ensures r.Err? <==> forall u :: u in users ==> u.username != username
    ensures r.Err? ==> r.error == Failure(EntityNotFound, "user not found")
    ensures r.Ok? ==> forall f :: f in r.value <==>
      f in users && IsAccepted(edges, SubscriptionId(FindByUsername(users, username).value.id, f.id))
  {
    match FindByUsername(users, username)
    case None => Err(Failure(EntityNotFound, "user not found"))
    case Some(user) => Ok(Subscribers(users, FindAllByUserAndAccepted(edges, user.id), user.id))
  }

  /** The keys in `accepted` that name a subscriber present in `users`. */
  function KeysOfSubscribers(users: seq<User>, accepted: set<SubscriptionId>, userId: int): set<SubscriptionId>
  {
    set u | u in users && SubscriptionId(userId, u.id) in accepted :: SubscriptionId(userId, u.id)
  }

  lemma KeysOfSubscribersCons(users: seq<User>, accepted: set<SubscriptionId>, userId: int)
    requires |users| > 0
    ensures var k0 := SubscriptionId(userId, users[0].id);
      KeysOfSubscribers(users, accepted, userId)
      == (if k0 in accepted then {k0} else {}) + KeysOfSubscribers(users[1..], accepted, userId)
  {
    var k0 := SubscriptionId(userId, users[0].id);
    var keys := KeysOfSubscribers(users, accepted, userId);
    var restKeys := KeysOfSubscribers(users[1..], accepted, userId);
    forall k | k in keys
      ensures k in (if k0 in accepted then {k0} else {}) + restKeys
    {
      var u :| u in users && SubscriptionId(userId, u.id) in accepted && k == SubscriptionId(userId, u.id);
      if u != users[0] {
        assert u in users[1..];
      }
    }
    forall k | k in restKeys
      ensures k in keys
    {
      var u :| u in users[1..] && SubscriptionId(userId, u.id) in accepted && k == SubscriptionId(userId, u.id);
      assert u in users;
    }
  }

  lemma {:induction false} SubscribersCount(users: seq<User>, accepted: set<SubscriptionId>, userId: int)
    requires UsersValid(users)
    ensures |Subscribers(users, accepted, userId)| == |KeysOfSubscribers(users, accepted, userId)|
  {
    if |users| > 0 {
      var rest := users[1..];
      UsersValidTail(users);
      SubscribersCount(rest, accepted, userId);
      KeysOfSubscribersCons(users, accepted, userId);
      var k0 := SubscriptionId(userId, users[0].id);
      assert forall u :: u in rest ==> SubscriptionId(userId, u.id) != k0;
      assert k0 !in KeysOfSubscribers(rest, accepted, userId);
    }
  }

  /** No two entries of `s` have the same id. */
  predicate DistinctIds(s: seq<User>)
  {
    forall i, j :: 0 <= i < j < |s| ==> s[i].id != s[j].id
  }

  /** A user whose id no entry of `tail` has can go in front of it. */
  lemma ConsDistinct(u: User, tail: seq<User>)
    requires DistinctIds(tail)
    requires forall v :: v in tail ==> v.id != u.id
    ensures DistinctIds([u] + tail)
  {
    var r := [u] + tail;
    forall i, j | 0 <= i < j < |r|
      ensures r[i].id != r[j].id
    {
      assert r[j] == tail[j - 1];
      if i > 0 {
        assert r[i] == tail[i - 1];
      }
    }
  }

  lemma {:induction false} SubscribersDistinct(users: seq<User>, accepted: set<SubscriptionId>, userId: int)
    requires UsersValid(users)
    ensures DistinctIds(Subscribers(users, accepted, userId))
  {
    if |users| > 0 {
      var rest := users[1..];
      UsersValidTail(users);
      SubscribersDistinct(rest, accepted, userId);
      var tail := Subscribers(rest, accepted, userId);
      if SubscriptionId(userId, users[0].id) in accepted {
        ConsDistinct(users[0], tail);
      } else {
        assert Subscribers(users, accepted, userId) == tail;
      }
    }
  }

  /** The friends list has exactly one entry per accepted edge into the named
      user: no subscriber appears twice, and there are as many entries as
      accepted edges (the subscriber of every edge is a registered user). */
  lemma FriendsOnePerAcceptedEdge(users: seq<User>, edges: Edges, username: string)
    requires UsersValid(users)
    requires forall k :: k in edges ==> k.subscriberId in UserIds(users)
    ensures FindFriendsByUsername(users, edges, username).Ok? ==>
      && DistinctIds(FindFriendsByUsername(users, edges, username).value)
      && |FindFriendsByUsername(users, edges, username).value|
         == |FindAllByUserAndAccepted(edges, FindByUsername(users, username).value.id)|
  {
    var target := FindByUsername(users, username);
    if target.Some? {
      var userId := target.value.id;
      var accepted := FindAllByUserAndAccepted(edges, userId);
      SubscribersCount(users, accepted, userId);
      SubscribersDistinct(users, accepted, userId);
      var keys := KeysOfSubscribers(users, accepted, userId);
      forall k | k in accepted
        ensures k in keys
      {
        var u :| u in users && u.id == k.subscriberId;
        assert k == SubscriptionId(userId, u.id);
      }
      assert keys == accepted;
    }
  }
}
