/** The relational store behind the services: one table per entity, and the
    IDENTITY counters that number new rows. */
module Store {
  import opened Entities
  import opened Users

  /** Every edge joins two registered users (the foreign keys of subscription_entity). */
  predicate EdgesRegistered(users: seq<User>, edges: Edges)
  {
    forall k :: k in edges ==> k.userId in UserIds(users) && k.subscriberId in UserIds(users)
  }

  class Database {
    var users: seq<User>
    var edges: Edges
    var posts: map<int, Post>
    var images: map<int, PostImage>
    var messages: seq<Message>
    var nextUserId: int
    var nextPostId: int
    var nextImageId: int
    var nextMessageId: int

    /** The table constraints: unique user columns, foreign keys, keys that
        match the ids they index, and counters above every id handed out. */
    ghost predicate Valid()
      reads this
    {
      && UsersValid(users)
      && (forall u :: u in users ==> u.id < nextUserId)
      && EdgesRegistered(users, edges)
      && (forall id :: id in posts ==> posts[id].id == id && id < nextPostId && posts[id].owner in users)
      && (forall id :: id in images ==> images[id].id == id && id < nextImageId && images[id].postId in posts)
      && (forall m :: m in messages ==> m.id < nextMessageId && m.sender in users && m.recipient in users)
    }

    /** An empty database; IDENTITY columns start at 1. */
    constructor ()
      ensures Valid()
      ensures users == [] && edges == map[] && posts == map[] && images == map[] && messages == []
    {
      users, edges, posts, images, messages := [], map[], map[], map[], [];
      nextUserId, nextPostId, nextImageId, nextMessageId := 1, 1, 1, 1;
    }
  }
}
