/** MessageService: sending a message to a user named by username, and the
    two message lists. The message table only grows. */
module Messages {
  import opened Wrappers
  import opened Entities
  import opened Users
  import opened Store

  /** `findAllByRecipient`: the messages addressed to the user; the derived
      query compares the recipient's id. */
  function FindAllByRecipient(messages: seq<Message>, recipient: User): (r: set<Message>)
    ensures forall m :: m in r <==> m in messages && m.recipient.id == recipient.id
  {
    set m | m in messages && m.recipient.id == recipient.id
  }

  /** `findAllBySenderUsername`: the messages sent by the named user. */
  function FindAllBySenderUsername(users: seq<User>, messages: seq<Message>, senderUsername: string): (r: Result<set<Message>>)
    ensures r.Err? <==> forall u :: u in users ==> u.username != senderUsername
    ensures r.Err? ==> r.error == UserNotFound
    ensures r.Ok? ==> forall m :: m in r.value <==>
      m in messages && m.sender.id == FindByUsername(users, senderUsername).value.id
  {
    match FindByUsername(users, senderUsername)
    case None => Err(UserNotFound)
    case Some(sender) => Ok(set m | m in messages && m.sender.id == sender.id)
  }

  /** `sendMessageToUserByUsername`: the recipient is looked up first, then
      the sender; the message is appended under the next id. */
  method SendMessage(db: Database, principal: string, username: string, text: string) returns (r: Result<Message>)
    requires db.Valid()
    modifies db`messages, db`nextMessageId
    ensures db.Valid()
    ensures FindByUsername(db.users, username).None? ==> r == Err(UserNotFound)
    ensures FindByUsername(db.users, username).Some? && GetCurrentAuthUser(db.users, principal).Err? ==> r == Err(SomethingWrong)
    ensures r.Ok? <==> FindByUsername(db.users, username).Some? && GetCurrentAuthUser(db.users, principal).Ok?
    ensures r.Err? ==> db.messages == old(db.messages) && db.nextMessageId == old(db.nextMessageId)
    ensures r.Ok? ==>
      && r.value == Message(old(db.nextMessageId), text, GetCurrentAuthUser(db.users, principal).value,
                            FindByUsername(db.users, username).value)
      && db.messages == old(db.messages) + [r.value]
      && db.nextMessageId == old(db.nextMessageId) + 1
  {
    var recipient := FindByUsername(db.users, username);
    if recipient.None? {
      return Err(UserNotFound);
    }
    var sender := GetCurrentAuthUser(db.users, principal);
    if sender.Err? {
      return Err(sender.error);
    }
    var message := Message(db.nextMessageId, text, sender.value, recipient.value);
    db.messages := db.messages + [message];
    db.nextMessageId := db.nextMessageId + 1;
    return Ok(message);
  }

  /** Appending a message adds it to its recipient's list and to no one
      else's. */
  lemma InboxAfterSend(messages: seq<Message>, m: Message, user: User)
    ensures FindAllByRecipient(messages + [m], user)
      == FindAllByRecipient(messages, user) + (if m.recipient.id == user.id then {m} else {})
  {
    var before, after := FindAllByRecipient(messages, user), FindAllByRecipient(messages + [m], user);
    forall x | x in after
      ensures x in before || (x == m && m.recipient.id == user.id)
    {
      if x != m {
        assert x in messages;
      }
    }
  }

  /** On a table with unique usernames, a message sent by a registered user
      shows in that user's sent list, under the sender's username, and in
      the recipient's list. */
  lemma SentMessageIsListed(users: seq<User>, messages: seq<Message>, m: Message)
    requires UsersValid(users)
    requires m.sender in users
    ensures FindAllBySenderUsername(users, messages + [m], m.sender.username).Ok?
    ensures m in FindAllBySenderUsername(users, messages + [m], m.sender.username).value
    ensures m in FindAllByRecipient(messages + [m], m.recipient)
  {
    LookupsAreExact(users, m.sender);
  }
}
