# social-media-api services, modelled in Dafny

This project models the service layer of a Spring social network backend
(`ru.elseff.socialmedia`) over an in-memory relational store. Users register
and log in, follow each other through subscriptions that the followed user
accepts, write posts with images, and send each other messages. The model
covers the decisions each service makes, the errors it raises, and what each
call writes to the store. It then proves what the services promise about that
store.

Modules, one per service plus shared pieces:

- `Wrappers` holds `Option`, `Result` and the Java exception kinds. A thrown
  exception is an `Err` carrying the exception kind and its message.
- `Entities` holds the rows: `User`, the subscription key `SubscriptionId`
  with the table `Edges` (key to `accepted` flag), `Post`, `PostImage` and
  `Message`.
- `Store` is the class `Database`: one field per table and the IDENTITY
  counters. Its `Valid()` states the table constraints: unique user columns,
  foreign keys, rows keyed by their own id, and counters above every id in
  use. Every state-changing service method keeps `Valid()` and states its
  whole new state.
- `Users` covers UserService: lookups, the current user, and the friends
  query. The security context is replaced by an explicit `principal`
  argument (the username of the logged-in user).
- `Subscriptions` covers SubscriptionService: the subscribe/cancel toggle and
  the accept. Each is a function from the table to a `Transition` (status and
  new table) with the properties proved about it, plus a method on
  `Database` proved to perform that transition.
- `Posts` covers PostService: lookup, the ownership test, and the add, delete
  and update methods.
- `Strings`, `Utf8`, `Base64` and `Filenames` cover the name under which
  PostImageService stores an upload. That is the base 64 encoding (section 4
  of RFC 4648) of the UTF-8 bytes (RFC 3629) of the text before the first
  ".", then ".", then the next field of `String.split("\\.")`. The module
  models the split itself, including the dropped trailing empty fields.
- `PostImages` covers PostImageService: listing, uploading and deleting
  image rows.
- `Auth` covers AuthService: register and login. Password encoding, password
  matching and token generation are uninterpreted functions passed in a
  `Crypto` value.
- `Messages` covers MessageService: sending, and the two message lists.
- `UserDetailsService` covers UserDetailsServiceImpl: the email pattern
  `^[\w-\.]+@([\w-]+\.)+[\w-]{2,4}$` as a predicate, and the lookup it selects.
- `Jwt` covers `JwtProvider.getTokenFromRequest`, the bearer header of
  section 2.1 of RFC 6750 in the service's case-sensitive form.

`changeSub` is modelled as the code is written. It looks up the edge into
the target with `findByUser`, which ignores who the subscriber is. The unit
tests of the repository exercise a different variant (`findByUserAndSubscriber`,
other status strings), and the model follows the code, not the tests.
`findByUser` is a single-result query. When several edges match, the model
makes the call fail with `IncorrectResultSize`, and the transaction writes
nothing. In the cancel branch the delete is flushed before the second query
runs, so that query sees the table without the deleted edge.

## Model

| member | source | states |
|---|---|---|
| Users.FindById | src/main/java/ru/elseff/socialmedia/web/api/modules/user/service/UserService.java:34-37 | finds a user holding the id, or none exactly when no user has it |
| Users.FindByUsername | src/main/java/ru/elseff/socialmedia/web/api/modules/user/service/UserService.java:39-42 | finds a user with that username, or none exactly when no user has it |
| Users.FindByEmail | src/main/java/ru/elseff/socialmedia/persistense/dao/UserRepository.java:18 | finds a user with that email, or none exactly when no user has it |
| Users.LookupsAreExact | src/main/java/ru/elseff/socialmedia/web/api/modules/user/service/UserService.java:34-42 | with unique id, username and email columns, each lookup returns the one user that holds the key |
| Users.UsersValidAppend | src/main/java/ru/elseff/socialmedia/web/api/modules/auth/service/AuthService.java:53-58 | saving a row whose id, username and email are unused keeps the unique constraints and adds its id |
| Users.GetCurrentAuthUser | src/main/java/ru/elseff/socialmedia/web/api/modules/user/service/UserService.java:44-50 | the principal resolves to a user with that username; it fails with "something wrong" exactly when there is none |
| Users.Subscribers | src/main/java/ru/elseff/socialmedia/web/api/modules/user/service/UserService.java:57-62 | a user is listed exactly when it is registered and its accepted edge into the target is among the given ones |
| Users.FindFriendsByUsername | src/main/java/ru/elseff/socialmedia/web/api/modules/user/service/UserService.java:52-63 | fails with "user not found" (EntityNotFoundException) exactly for an unknown username; otherwise lists exactly the registered users whose edge into the named user is accepted |
| Users.SubscribersCount | src/main/java/ru/elseff/socialmedia/web/api/modules/user/service/UserService.java:57-62 | the list is as long as the set of accepted-edge keys whose subscriber is registered |
| Users.SubscribersDistinct | src/main/java/ru/elseff/socialmedia/web/api/modules/user/service/UserService.java:57-62 | no subscriber is listed twice |
| Users.FriendsOnePerAcceptedEdge | src/main/java/ru/elseff/socialmedia/web/api/modules/user/service/UserService.java:57-62 | one entry per accepted edge into the user: entries are distinct and as many as the accepted edges; pending edges add nothing |
| Subscriptions.FindByUser | src/main/java/ru/elseff/socialmedia/persistense/dao/SubscriptionRepository.java:14 | the single-result query: no edge, the one edge into the user whatever its subscriber, or several (an error) |
| Subscriptions.ChangeSubscription | src/main/java/ru/elseff/socialmedia/web/api/modules/subscription/service/SubscriptionService.java:25-60 | the target is looked up first ("user not found"), then the actor; self-subscription changes nothing; with no edge into the target exactly one pending edge (target, actor) is added; with one, it is deleted whoever its subscriber and the edge into the actor is demoted, no key added; errors write nothing; no edge ever becomes accepted |
| Subscriptions.AcceptSubscription | src/main/java/ru/elseff/socialmedia/web/api/modules/subscription/service/SubscriptionService.java:62-92 | succeeds exactly when both users resolve and the edge (actor, named) exists; then both directions are accepted, the reverse key is the only new one and every other edge keeps its flag; a missing edge fails with "No value present"; errors write nothing |
| Subscriptions.ChangeSubscriptionKeepsEdgesRegistered | src/main/java/ru/elseff/socialmedia/web/api/modules/subscription/service/SubscriptionService.java:48-57 | every edge still joins two registered users after a toggle |
| Subscriptions.AcceptSubscriptionKeepsEdgesRegistered | src/main/java/ru/elseff/socialmedia/web/api/modules/subscription/service/SubscriptionService.java:79-89 | every edge still joins two registered users after an accept |
| Subscriptions.ChangeSub | src/main/java/ru/elseff/socialmedia/web/api/modules/subscription/service/SubscriptionService.java:25-60 | the method leaves the table and status that ChangeSubscription describes, and keeps the store constraints |
| Subscriptions.AcceptSub | src/main/java/ru/elseff/socialmedia/web/api/modules/subscription/service/SubscriptionService.java:62-92 | the method leaves the table and status that AcceptSubscription describes, and keeps the store constraints |
| Subscriptions.IdsDiffer | src/main/java/ru/elseff/socialmedia/web/api/modules/subscription/service/SubscriptionService.java:32-33 | two users with different usernames have different ids |
| Subscriptions.SecondToggleCancels | src/main/java/ru/elseff/socialmedia/web/api/modules/subscription/service/SubscriptionService.java:35-46 | the pending edge the first toggle inserted is the one the second toggle deletes |
| Subscriptions.ToggleTwiceUndoes | src/main/java/ru/elseff/socialmedia/web/api/modules/subscription/service/SubscriptionService.java:35-58 | subscribe then toggle again on a target nobody followed: the first call subscribes, the second cancels and every key is as before; only the edge into the actor is demoted |
| Subscriptions.AcceptMakesMutualFriends | src/main/java/ru/elseff/socialmedia/web/api/modules/subscription/service/SubscriptionService.java:69-91 | after an accept each user is in the other's friends list |
| Subscriptions.CancelDeletesAnotherSubscribersEdge | src/main/java/ru/elseff/socialmedia/web/api/modules/subscription/service/SubscriptionService.java:35-37 | the cancel branch deletes an edge of a third user: alice toggling bob removes carol's subscription to bob |
| Posts.FindPostById | src/main/java/ru/elseff/socialmedia/web/api/modules/post/service/PostService.java:39-43 | succeeds exactly for a stored id, with that row; fails with "post not found" otherwise |
| Posts.FoundPostHasId | src/main/java/ru/elseff/socialmedia/web/api/modules/post/service/PostService.java:39-43 | the post found under an id carries that id |
| Posts.IsCurrentUserOwnPost | src/main/java/ru/elseff/socialmedia/web/api/modules/post/service/PostService.java:80-85 | fails exactly when the principal has no user; true only when the author's username is the principal |
| Posts.OwnPostIffAuthor | src/main/java/ru/elseff/socialmedia/web/api/modules/post/service/PostService.java:80-85 | with unique usernames and a registered author, own post holds iff the author's username is the principal (UserEntity equality on id, email, username) |
| Posts.AuthorizeEdit | src/main/java/ru/elseff/socialmedia/web/api/modules/post/service/PostService.java:53-78 | the shared guard: unknown id fails with "post not found" first; success exactly for an existing post the principal owns; otherwise "someone else's post" or the principal's failure |
| Posts.AuthorizeEditIffAuthor | src/main/java/ru/elseff/socialmedia/web/api/modules/post/service/PostService.java:58-61 | on a consistent store editing is allowed iff the post exists and its author is the principal; a registered non-author gets "someone else's post" |
| Posts.Patch | src/main/java/ru/elseff/socialmedia/web/api/modules/post/service/PostService.java:69-73 | a given title or text replaces the stored one, a null one keeps it; id and author unchanged |
| Posts.PatchIdempotent | src/main/java/ru/elseff/socialmedia/web/api/modules/post/service/PostService.java:69-73 | applying the same update twice equals applying it once |
| Posts.ImagesOutside | src/main/java/ru/elseff/socialmedia/persistense/PostEntity.java:43-47 | exactly the image rows of other posts, unchanged |
| Posts.AddPost | src/main/java/ru/elseff/socialmedia/web/api/modules/post/service/PostService.java:45-51 | fails exactly for an unknown principal, writing nothing; otherwise stores the post under a fresh id with the principal as author, title and text kept, and nothing else |
| Posts.DeletePost | src/main/java/ru/elseff/socialmedia/web/api/modules/post/service/PostService.java:53-62 | succeeds exactly when AuthorizeEdit does; then removes exactly that post and its image rows; on failure nothing changes |
| Posts.UpdatePost | src/main/java/ru/elseff/socialmedia/web/api/modules/post/service/PostService.java:64-78 | succeeds exactly when AuthorizeEdit does; then stores the patched post under the same id and returns it; on failure nothing changes |
| Strings.IndexOf | src/main/java/ru/elseff/socialmedia/web/api/modules/postimage/service/PostImageService.java:57 | a found index holds the character |
| Strings.IndexOfIsFirst | src/main/java/ru/elseff/socialmedia/web/api/modules/postimage/service/PostImageService.java:57 | no earlier position holds the character |
| Strings.IndexOfAt | src/main/java/ru/elseff/socialmedia/web/api/modules/postimage/service/PostImageService.java:57 | an occurrence with none before it is the index found |
| Strings.NatToString | src/main/java/ru/elseff/socialmedia/web/api/modules/postimage/service/PostImageService.java:77 | the image id in the not-found message is written in decimal digits without a leading zero |
| Strings.NatToStringValue | src/main/java/ru/elseff/socialmedia/web/api/modules/postimage/service/PostImageService.java:77 | the decimal digits of the image id read back as the number |
| Utf8.EncodeChar | src/main/java/ru/elseff/socialmedia/web/api/modules/postimage/service/PostImageService.java:60 | one to four bytes, the lead byte giving the length, the rest continuation bytes (RFC 3629) |
| Utf8.DecodeEncode | src/main/java/ru/elseff/socialmedia/web/api/modules/postimage/service/PostImageService.java:60 | decoding the UTF-8 bytes of a name gives the name back |
| Utf8.EncodeInjective | src/main/java/ru/elseff/socialmedia/web/api/modules/postimage/service/PostImageService.java:60 | different names have different UTF-8 bytes |
| Base64.Value | src/main/java/ru/elseff/socialmedia/web/api/modules/postimage/service/PostImageService.java:60 | a character has a 6-bit value exactly when it is in the alphabet of section 4 of RFC 4648, and it is the inverse of Symbol |
| Base64.DecodeEncode | src/main/java/ru/elseff/socialmedia/web/api/modules/postimage/service/PostImageService.java:60 | decoding the padded base 64 text gives the bytes back |
| Base64.EncodedLength | src/main/java/ru/elseff/socialmedia/web/api/modules/postimage/service/PostImageService.java:60 | every started group of three bytes takes four characters |
| Base64.EncodedAlphabet | src/main/java/ru/elseff/socialmedia/web/api/modules/postimage/service/PostImageService.java:60 | the text holds alphabet symbols and "=" only |
| Base64.NoDot | src/main/java/ru/elseff/socialmedia/web/api/modules/postimage/service/PostImageService.java:60 | the text holds no "." |
| Filenames.FieldShape | src/main/java/ru/elseff/socialmedia/web/api/modules/postimage/service/PostImageService.java:57-58 | the text before the first "." holds no "." and starts the name |
| Filenames.AroundDot | src/main/java/ru/elseff/socialmedia/web/api/modules/postimage/service/PostImageService.java:57-59 | a name with a "." is its first field, the ".", and the text after it |
| Filenames.JoinSplitAll | src/main/java/ru/elseff/socialmedia/web/api/modules/postimage/service/PostImageService.java:57 | joining the fields with "." gives the name back |
| Filenames.SplitAllEmpty | src/main/java/ru/elseff/socialmedia/web/api/modules/postimage/service/PostImageService.java:57 | all fields are empty exactly when the name is all dots |
| Filenames.DropTrailingEmpty | src/main/java/ru/elseff/socialmedia/web/api/modules/postimage/service/PostImageService.java:57 | a prefix of the fields ending in a non-empty one, dropping only empty ones |
| Filenames.SplitOnDotsFields | src/main/java/ru/elseff/socialmedia/web/api/modules/postimage/service/PostImageService.java:57-59 | split("\\.") yields two fields or more exactly when a character other than "." follows the first "."; then field 0 is the text before the first ".", field 1 the text up to the next "."; none exactly for a name of dots |
| Filenames.DiskNameFields | src/main/java/ru/elseff/socialmedia/web/api/modules/postimage/service/PostImageService.java:56-60 | a disk name exists exactly for names with an extension: base 64 of the UTF-8 bytes of the text before the first ".", ".", the text up to the second "."; otherwise the index error of parts[0] or parts[1] |
| Filenames.ParseDiskNameRoundTrip | src/main/java/ru/elseff/socialmedia/web/api/modules/postimage/service/PostImageService.java:60 | the name and the extension can be read back from the disk name |
| Filenames.SameDiskName | src/main/java/ru/elseff/socialmedia/web/api/modules/postimage/service/PostImageService.java:56-60 | two names share a disk name exactly when they agree up to the second "." |
| Filenames.DiskNameOfPng | src/main/java/ru/elseff/socialmedia/web/api/modules/postimage/service/PostImageService.java:56-60 | "a.png" is stored as "YQ==.png" |
| Filenames.DiskNameCollision | src/main/java/ru/elseff/socialmedia/web/api/modules/postimage/service/PostImageService.java:56-60 | "a.png" and "a.png.bak" are stored under the same disk name |
| PostImages.FindAllByPostId | src/main/java/ru/elseff/socialmedia/web/api/modules/postimage/service/PostImageService.java:37-43 | fails with "post not found" exactly for an unknown post; otherwise exactly the image rows of that post |
| PostImages.UploadPostImage | src/main/java/ru/elseff/socialmedia/web/api/modules/postimage/service/PostImageService.java:45-69 | unknown post, null name, or a name without an extension fail and save nothing; otherwise a row with the original name and the post is saved under a fresh id whatever the copy outcome, and the file written is the disk name of that row's name |
| PostImages.DeleteImage | src/main/java/ru/elseff/socialmedia/web/api/modules/postimage/service/PostImageService.java:71-95 | unknown post, then unknown image ("image <id> not found"), then a name without an extension fail and delete nothing; otherwise exactly that row is removed, "deletion successful" is returned, and the file removed is the disk name the upload wrote for the stored name |
| Auth.NewUser | src/main/java/ru/elseff/socialmedia/web/api/modules/auth/service/AuthService.java:49-56 | the saved row has the request's email and username, the encoded password and the one role ROLE_USER |
| Auth.Register | src/main/java/ru/elseff/socialmedia/web/api/modules/auth/service/AuthService.java:42-63 | fails with "Пользователь уже существует" exactly when the email or username is taken, saving nothing; otherwise appends the new row under a fresh id and answers its id, the request's email and username and a token made from the email |
| Auth.Identifier | src/main/java/ru/elseff/socialmedia/web/api/modules/auth/service/AuthService.java:71-81 | the email whenever it is given, else the username; none exactly when both are null |
| Auth.LoginUser | src/main/java/ru/elseff/socialmedia/web/api/modules/auth/service/AuthService.java:73-81 | looks the user up by email whenever one is given, else by username |
| Auth.LoginOutcome | src/main/java/ru/elseff/socialmedia/web/api/modules/auth/service/AuthService.java:65-101 | no identifier fails first, then an unknown identifier ("Пользователь <x> не найден"), then a wrong password ("Неверный пароль!"); success exactly when the user is found and the password matches; the response carries the user's id, exactly the identifier used and a token made from it |
| Auth.Login | src/main/java/ru/elseff/socialmedia/web/api/modules/auth/service/AuthService.java:65-101 | the method with its existsByEmail flag answers what LoginOutcome describes |
| Auth.RegisteredUserCanLogIn | src/main/java/ru/elseff/socialmedia/web/api/modules/auth/service/AuthService.java:42-101 | a newly registered user logs in by email, or by username when no email is sent, and gets the new id |
| Auth.EmailTakesPrecedence | src/main/java/ru/elseff/socialmedia/web/api/modules/auth/service/AuthService.java:73-77 | when an email is sent the username plays no part in the answer |
| Messages.FindAllByRecipient | src/main/java/ru/elseff/socialmedia/web/api/modules/message/service/MessageService.java:27-30 | exactly the messages whose recipient has the user's id |
| Messages.FindAllBySenderUsername | src/main/java/ru/elseff/socialmedia/web/api/modules/message/service/MessageService.java:32-38 | fails with "user not found" exactly for an unknown sender; otherwise exactly the messages sent by that user |
| Messages.SendMessage | src/main/java/ru/elseff/socialmedia/web/api/modules/message/service/MessageService.java:40-53 | unknown recipient fails first ("user not found"), then an unknown principal; success exactly when both resolve; appends exactly one message with the principal as sender, the named recipient and the text, and changes no earlier message |
| Messages.InboxAfterSend | src/main/java/ru/elseff/socialmedia/web/api/modules/message/service/MessageService.java:52 | appending a message adds it to its recipient's list only |
| Messages.SentMessageIsListed | src/main/java/ru/elseff/socialmedia/web/api/modules/message/service/MessageService.java:32-52 | a sent message appears in the sender's list, looked up by username, and in the recipient's list |
| UserDetailsService.DomainShape | src/main/java/ru/elseff/socialmedia/security/UserDetailsServiceImpl.java:25 | a domain holds a "." and only labels and dots |
| UserDetailsService.EmailShape | src/main/java/ru/elseff/socialmedia/security/UserDetailsServiceImpl.java:25 | every string taken for an email has exactly one "@" and a "." after it |
| UserDetailsService.NoAtNoEmail | src/main/java/ru/elseff/socialmedia/security/UserDetailsServiceImpl.java:25 | a string without "@" is never taken for an email |
| UserDetailsService.NoDotAfterAtNotEmail | src/main/java/ru/elseff/socialmedia/security/UserDetailsServiceImpl.java:25 | a string with no "." after its first "@" is not taken for an email |
| UserDetailsService.MailRuIsEmail | src/main/java/ru/elseff/socialmedia/security/UserDetailsServiceImpl.java:25 | "bob@mail.ru" matches the pattern |
| UserDetailsService.ShortTopLevelNotEmail | src/main/java/ru/elseff/socialmedia/security/UserDetailsServiceImpl.java:25 | "bob@mail.r" does not: the last part needs 2 to 4 characters |
| UserDetailsService.LoadUserByUsername | src/main/java/ru/elseff/socialmedia/security/UserDetailsServiceImpl.java:23-43 | an identifier matching the pattern is looked up by email, any other by username; found exactly when a user has that key, with its columns copied unchanged; otherwise "User '<x>' not found" in both branches |
| UserDetailsService.LoadByOwnKey | src/main/java/ru/elseff/socialmedia/security/UserDetailsServiceImpl.java:33-40 | a registered user is loaded back by its email when it has the shape of one, and by its username when it does not |
| UserDetailsService.LoginSubjectLoadsSameUser | src/main/java/ru/elseff/socialmedia/security/UserDetailsServiceImpl.java:33-40 | the subject of a login token loads the user who logged in, when the identifier is classified the way it was used |
| UserDetailsService.UsernameShapedLikeEmail | src/main/java/ru/elseff/socialmedia/security/UserDetailsServiceImpl.java:33-38 | a username shaped like an email loads the user whose email it is, not the user who logged in with it |
| Jwt.BearerHasText | src/main/java/ru/elseff/socialmedia/security/JwtProvider.java:71 | a header of the bearer scheme always has text |
| Jwt.GetTokenFromRequest | src/main/java/ru/elseff/socialmedia/security/JwtProvider.java:69-74 | a token exactly when the header is present and starts with "Bearer "; the header is "Bearer " followed by the token |
| Jwt.BearerRoundTrip | src/main/java/ru/elseff/socialmedia/security/JwtProvider.java:71-72 | "Bearer " followed by any token gives that token back |
| Jwt.BlankHeaderHasNoToken | src/main/java/ru/elseff/socialmedia/security/JwtProvider.java:71-73 | a missing header or one of whitespace only gives no token |
| Jwt.OtherSchemesHaveNoToken | src/main/java/ru/elseff/socialmedia/security/JwtProvider.java:71-73 | "bearer x" and "Bearer" give no token |

## Left out

- Controllers, security configuration, OpenAPI configuration and the exception handlers are HTTP routing and framework wiring. The model ends at the service methods; an `Err` stands for the thrown exception.
- JwtProvider `generateToken`, `validateToken` and `getUsernameFromToken` (signing, parsing and the clock) are outside the model. The filter that loads the principal from a token's subject is not part of this model either, so the principal is an argument. UsernameShapedLikeEmail states what that subject lookup does with a username shaped like an email.
- Password hashing (BCrypt) is modelled as the uninterpreted `encode` and `matches`. Token generation is modelled as `generateToken`. RegisteredUserCanLogIn requires that `matches` accepts a password against its own encoding, which is what a password encoder promises.
- File system calls (`Files.copy`, `Files.deleteIfExists`) are left out. Upload takes the copy outcome as a parameter that changes nothing, since the source only logs a failure. Both methods return the disk name they would write or remove.
- A disk name may contain "/" (a symbol of the base 64 alphabet), and the path it resolves to is not modelled.
- `PostService.findAll`, with pagination and a sort property chosen at run time, is left out. So is `UserService.findAll`, which returns the whole user table.
- Timestamps (`sendAt`, the creation and update dates of posts) are left out because they depend on the clock.
- DTO mapping and Bean Validation constraints are left out; requests arrive as already-validated values.
- Transactions are treated as atomic steps, and concurrency is not modelled.
- The role row ROLE_USER is taken to exist; `getByName` returning null is not modelled. Roles are held as role names.
- Ids are unbounded integers; Java `Long` overflow of the id counters is not modelled.
- Strings are sequences of Unicode scalar values. Java strings are UTF-16, so a name with a lone surrogate (which `getBytes` replaces by "?") is not modelled.
- The message of the `NullPointerException` raised by `requireNonNull` is modelled as empty.
- In the source, PostImageService calls `orElseThrow` on `PostService.findById`, which already returns the entity and throws "post not found" itself. The model treats both as the same "post not found" failure.
- On upload, the id the incoming entity might carry is not modelled: the row always gets the next IDENTITY value.
- Users.FindFriendsByUsername: states which users the list holds, not their order. The list is in table order, and the order of the database result is not modelled. Its length and distinctness are proved in FriendsOnePerAcceptedEdge.
- Messages.FindAllByRecipient: compares the recipient's id, as the derived query does. Equality of whole entities in the returned set is not modelled.
- Posts.IsCurrentUserOwnPost: its contract states one direction only (ownership implies the principal is the author's username). The equivalence needs unique usernames and a registered author, and is proved in OwnPostIffAuthor.
