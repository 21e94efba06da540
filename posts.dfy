/** PostService: reading, creating, editing and deleting posts; only the
    author may edit or delete a post. */
module Posts {
  import opened Wrappers
  import opened Entities
  import opened Users
  import opened Store

  const PostNotFound := Failure(IllegalArgument, "post not found")
  const SomeoneElsesPost := Failure(IllegalArgument, "someone else's post")

  /** `findById`: the post stored under `id`. */
  function FindPostById(posts: map<int, Post>, id: int): (r: Result<Post>)
    ensures r.Ok? <==> id in posts
    ensures r.Ok? ==> r.value in posts.Values
    ensures r.Err? ==> r.error == PostNotFound
  {
    if id in posts then Ok(posts[id]) else Err(PostNotFound)
  }

  /** On a table whose rows are keyed by their own id, the post found under
      `id` carries that id. */
  lemma FoundPostHasId(posts: map<int, Post>, id: int)
    requires forall k :: k in posts ==> posts[k].id == k
    ensures FindPostById(posts, id).Ok? ==> FindPostById(posts, id).value.id == id
  {
  }

  /** `isCurrentUserOwnPost`: the author equals (by `UserEntity.equals`) the
      user of the principal; an unknown principal makes the call fail. */
  function IsCurrentUserOwnPost(users: seq<User>, principal: string, post: Post): (r: Result<bool>)
    ensures r.Err? <==> forall u :: u in users ==> u.username != principal
    ensures r.Err? ==> r.error == SomethingWrong
    // a post of someone else's never passes: the compared username is the principal
    ensures r.Ok? && r.value ==> post.owner.username == principal
  {
    match GetCurrentAuthUser(users, principal)
    case Err(e) => Err(e)
    case Ok(user) => Ok(SameUser(post.owner, user))
  }

  /** With unique usernames and a registered author, the ownership test comes
      down to the author's name being the principal. */
  lemma {:induction false} OwnPostIffAuthor(users: seq<User>, principal: string, post: Post)
    requires UsersValid(users)
    requires post.owner in users
    ensures IsCurrentUserOwnPost(users, principal, post).Ok? ==>
      (IsCurrentUserOwnPost(users, principal, post).value <==> post.owner.username == principal)
    ensures post.owner.username == principal ==> IsCurrentUserOwnPost(users, principal, post) == Ok(true)
  {
    LookupsAreExact(users, post.owner);
  }

  /** The guard shared by `deletePost` and `updatePost`: the post must exist
      (checked first) and belong to the principal. */
  function AuthorizeEdit(users: seq<User>, posts: map<int, Post>, principal: string, id: int): (r: Result<Post>)
    ensures id !in posts ==> r == Err(PostNotFound)
    ensures (id in posts && forall u :: u in users ==> u.username != principal) ==> r == Err(SomethingWrong)
    ensures r.Err? ==> r.error in {PostNotFound, SomethingWrong, SomeoneElsesPost}
    ensures r.Ok? <==> id in posts && IsCurrentUserOwnPost(users, principal, posts[id]) == Ok(true)
    ensures r.Ok? ==> r.value == posts[id]
  {
    match FindPostById(posts, id)
    case Err(e) => Err(e)
    case Ok(post) =>
      match IsCurrentUserOwnPost(users, principal, post)
      case Err(e) => Err(e)
      case Ok(own) => if own then Ok(post) else Err(SomeoneElsesPost)
  }

  /** On a consistent store, editing is allowed exactly when the post exists
      and its author is the principal. */
  lemma AuthorizeEditIffAuthor(users: seq<User>, posts: map<int, Post>, principal: string, id: int)
    requires UsersValid(users)
    requires forall k :: k in posts ==> posts[k].owner in users
    ensures AuthorizeEdit(users, posts, principal, id).Ok? <==> id in posts && posts[id].owner.username == principal
    ensures (id in posts && posts[id].owner.username != principal && exists u :: u in users && u.username == principal)
      ==> AuthorizeEdit(users, posts, principal, id) == Err(SomeoneElsesPost)
  {
    if id in posts {
      OwnPostIffAuthor(users, principal, posts[id]);
    }
  }

  /** The fields of an update request; `None` stands for a null field, which
      leaves the stored value as it is. */
  function Patch(post: Post, title: Option<string>, text: Option<string>): (p: Post)
    ensures p.id == post.id && p.owner == post.owner
    ensures p.title == (if title.Some? then title.value else post.title)
    ensures p.text == (if text.Some? then text.value else post.text)
  {
    var titled := if title.Some? then post.(title := title.value) else post;
    if text.Some? then titled.(text := text.value) else titled
  }

  /** Sending the same update twice changes nothing the first did not. */
  lemma PatchIdempotent(post: Post, title: Option<string>, text: Option<string>)
    ensures Patch(Patch(post, title, text), title, text) == Patch(post, title, text)
  {
  }

  /** The image rows that do not belong to post `postId`. */
  function ImagesOutside(images: map<int, PostImage>, postId: int): (r: map<int, PostImage>)
    ensures forall k :: k in r <==> k in images && images[k].postId != postId
    ensures forall k :: k in r ==> r[k] == images[k]
  {
    map k | k in images && images[k].postId != postId :: images[k]
  }

  /** `addPost`: the post is stored under a fresh id with the principal as author. */
  method AddPost(db: Database, principal: string, title: string, text: string) returns (r: Result<Post>)
    requires db.Valid()
    modifies db`posts, db`nextPostId
    ensures db.Valid()
    ensures r.Err? <==> forall u :: u in db.users ==> u.username != principal
    ensures r.Err? ==> r.error == SomethingWrong && db.posts == old(db.posts) && db.nextPostId == old(db.nextPostId)
    ensures r.Ok? ==>
      && r.value == Post(old(db.nextPostId), title, text, GetCurrentAuthUser(db.users, principal).value)
      && r.value.id !in old(db.posts)
      && db.posts == old(db.posts)[r.value.id := r.value]
      && db.nextPostId == old(db.nextPostId) + 1
  {
    var user := GetCurrentAuthUser(db.users, principal);
    if user.Err? {
      return Err(user.error);
    }
    var post := Post(db.nextPostId, title, text, user.value);
    db.posts := db.posts[post.id := post];
    db.nextPostId := db.nextPostId + 1;
    return Ok(post);
  }

  /** `deletePost`: the author removes the post; its image rows go with it. */
  method DeletePost(db: Database, principal: string, id: int) returns (r: Result<()>)
    requires db.Valid()
    modifies db`posts, db`images
    ensures db.Valid()
    ensures r.Ok? <==> AuthorizeEdit(db.users, old(db.posts), principal, id).Ok?
    ensures r.Err? ==>
      && r.error == AuthorizeEdit(db.users, old(db.posts), principal, id).error
      && db.posts == old(db.posts) && db.images == old(db.images)
    ensures r.Ok? ==> db.posts == old(db.posts) - {id} && db.images == ImagesOutside(old(db.images), id)
  {
    var post := AuthorizeEdit(db.users, db.posts, principal, id);
    if post.Err? {
      return Err(post.error);
    }
    db.posts := db.posts - {id};
    db.images := ImagesOutside(db.images, id);
    return Ok(());
  }

  /** `updatePost`: the author replaces the title and/or the text. */
  method UpdatePost(db: Database, principal: string, id: int, title: Option<string>, text: Option<string>)
    returns (r: Result<Post>)
    requires db.Valid()
    modifies db`posts
    ensures db.Valid()
    ensures r.Ok? <==> AuthorizeEdit(db.users, old(db.posts), principal, id).Ok?
    ensures r.Err? ==> r.error == AuthorizeEdit(db.users, old(db.posts), principal, id).error && db.posts == old(db.posts)
    ensures r.Ok? ==>
      && r.value == Patch(old(db.posts)[id], title, text)
      && db.posts == old(db.posts)[id := r.value]
  {
    var post := AuthorizeEdit(db.users, db.posts, principal, id);
    if post.Err? {
      return Err(post.error);
    }
    var updated := Patch(post.value, title, text);
    db.posts := db.posts[id := updated];
    return Ok(updated);
  }
}
