/** The persisted records of the service, as values. Ids are Java `Long`s
    generated by the database; they are unbounded here. */
module Entities {

  /** A row of user_entity. `roles` holds the role names (RoleEntity.name). */
  datatype User = User(id: int, username: string, email: string, password: string, roles: set<string>)

  /** `UserEntity.equals`: two users are equal when id, email and username agree
      (password and roles are not compared). */
  predicate SameUser(a: User, b: User)
  {
    a.id == b.id && a.email == b.email && a.username == b.username
  }

  /** The composite key of subscription_entity: `userId` is the followed user,
      `subscriberId` the follower. Two keys are equal iff both parts are. */
  datatype SubscriptionId = SubscriptionId(userId: int, subscriberId: int)

  /** The subscription table: each key maps to its `accepted` flag. */
  type Edges = map<SubscriptionId, bool>

  /** A row of post_entity; `owner` is the author (`PostEntity.user`). */
  datatype Post = Post(id: int, title: string, text: string, owner: User)

  /** A row of post_image_entity: the post it belongs to and the original file name. */
  datatype PostImage = PostImage(id: int, postId: int, filename: string)

  /** A row of message_entity (the send timestamp is not modelled). */
  datatype Message = Message(id: int, text: string, sender: User, recipient: User)
}
