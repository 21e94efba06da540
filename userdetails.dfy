/** UserDetailsServiceImpl: the identifier of a login (the subject of a token)
    is classified by an email pattern, then looked up by email or by
    username. */
module UserDetailsService {
  import opened Wrappers
  import opened Strings
  import opened Entities
  import opened Users
  import Auth

  /** `\w` of a Java pattern without the UNICODE_CHARACTER_CLASS flag. */
  predicate IsWordChar(c: char)
  {
    'A' <= c <= 'Z' || 'a' <= c <= 'z' || '0' <= c <= '9' || c == '_'
  }

  /** The class `[\w-\.]` of the part before the '@'. */
  predicate IsLocalChar(c: char)
  {
    IsWordChar(c) || c == '-' || c == '.'
  }

  /** The class `[\w-]` of the domain labels and of the last part. */
  predicate IsLabelChar(c: char)
  {
    IsWordChar(c) || c == '-'
  }

  predicate LocalPart(s: string)
  {
    |s| > 0 && forall i :: 0 <= i < |s| ==> IsLocalChar(s[i])
  }

  predicate Label(s: string)
  {
    |s| > 0 && forall i :: 0 <= i < |s| ==> IsLabelChar(s[i])
  }

  /** `[\w-]{2,4}`, the part after the last '.'. */
  predicate TopLevel(s: string)
  {
    2 <= |s| <= 4 && forall i :: 0 <= i < |s| ==> IsLabelChar(s[i])
  }

  /** `([\w-]+\.)+[\w-]{2,4}`. A label holds no '.', so the first label ends
      at the first '.'; what follows is either the last part or another
      domain. */
  predicate Domain(s: string)
    decreases |s|
  {
    var k := IndexOf(s, '.');
    k < |s| && Label(s[..k]) && (TopLevel(s[k + 1..]) || Domain(s[k + 1..]))
  }

  /** The whole identifier matches `^[\w-\.]+@([\w-]+\.)+[\w-]{2,4}$`. The
      part before the '@' holds no '@', so the '@' of the pattern is the
      first one. */
  predicate IsEmail(s: string)
  {
    var a := IndexOf(s, '@');
    a < |s| && LocalPart(s[..a]) && Domain(s[a + 1..])
  }

  /** `s` holds exactly one '@'. */
  predicate SingleAt(s: string)
  {
    && '@' in s
    && forall i, j :: 0 <= i < |s| && 0 <= j < |s| && s[i] == '@' && s[j] == '@' ==> i == j
  }

  /** A domain is labels, '.' and the last part: no '@', and at least one '.'. */
  lemma {:induction false} DomainShape(s: string)
    requires Domain(s)
    ensures '.' in s
    ensures forall i :: 0 <= i < |s| ==> s[i] == '.' || IsLabelChar(s[i])
    decreases |s|
  {
    var k := IndexOf(s, '.');
    var rest := s[k + 1..];
    if !TopLevel(rest) {
      DomainShape(rest);
    }
    forall i | 0 <= i < |s|
      ensures s[i] == '.' || IsLabelChar(s[i])
    {
      if i < k {
        assert s[i] == s[..k][i];
      } else if i > k {
        assert s[i] == rest[i - k - 1];
      }
    }
  }

  /** Two '@'-free texts joined by one '@' hold that '@' only. */
  lemma SingleAtJoin(local: string, domain: string)
    requires '@' !in local && '@' !in domain
    ensures SingleAt(local + "@" + domain)
  {
    var s := local + "@" + domain;
    assert s[|local|] == '@';
    assert forall i :: 0 <= i < |local| ==> s[i] == local[i];
    assert forall i :: |local| < i < |s| ==> s[i] == domain[i - |local| - 1];
  }

  /** Every identifier taken for an email has exactly one '@' and a '.'
      after it. */
  lemma EmailShape(s: string)
    ensures IsEmail(s) ==> SingleAt(s) && '.' in s[IndexOf(s, '@') + 1..]
  {
    if IsEmail(s) {
      var a := IndexOf(s, '@');
      var local, domain := s[..a], s[a + 1..];
      DomainShape(domain);
      assert s == local + "@" + domain;
      SingleAtJoin(local, domain);
    }
  }

  /** A pattern matches a name with no '@' never: such identifiers are
      always looked up by username. */
  lemma NoAtNoEmail(s: string)
    requires '@' !in s
    ensures !IsEmail(s)
  {
  }

  /** The pieces of a typical address are what the pattern asks for. */
  lemma MailRuPieces()
    ensures IndexOf("bob@mail.ru", '@') == 3
    ensures IndexOf("mail.ru", '.') == 4
  {
    IndexOfAt("bob@mail.ru", '@', 3);
    IndexOfAt("mail.ru", '.', 4);
  }

  lemma MailRuClasses()
    ensures LocalPart("bob") && Label("mail") && TopLevel("ru")
  {
  }

  lemma MailRuIsEmail()
    ensures IsEmail("bob@mail.ru")
  {
    MailRuPieces();
    MailRuClasses();
    assert "bob@mail.ru"[..3] == "bob";
    assert "bob@mail.ru"[4..] == "mail.ru";
    assert "mail.ru"[..4] == "mail";
    assert "mail.ru"[5..] == "ru";
  }

  /** A one-letter last part is not accepted. */
  lemma ShortTopLevelNotEmail()
    ensures !IsEmail("bob@mail.r")
  {
    IndexOfAt("bob@mail.r", '@', 3);
    assert "bob@mail.r"[4..] == "mail.r";
    IndexOfAt("mail.r", '.', 4);
    assert "mail.r"[5..] == "r";
    assert !Domain("r") by { assert IndexOf("r", '.') == 1; }
  }

  /** An identifier with no '.' after its first '@' (a bare host name, say)
      is looked up by username. */
  lemma NoDotAfterAtNotEmail(s: string)
    requires IndexOf(s, '@') < |s| ==> '.' !in s[IndexOf(s, '@') + 1..]
    ensures !IsEmail(s)
  {
    EmailShape(s);
  }

  /** `UserDetailsImpl`: the principal Spring Security keeps for a user. */
  datatype UserDetails = UserDetails(email: string, username: string, password: string, authorities: set<string>)

  /** `toUserDetails`: the entity's columns, copied unchanged. */
  function ToUserDetails(u: User): UserDetails
  {
    UserDetails(u.email, u.username, u.password, u.roles)
  }

  function UserNotFoundFor(identifier: string): Failure
  {
    Failure(UsernameNotFound, "User '" + identifier + "' not found")
  }

  /** `loadUserByUsername`: an identifier shaped like an email is looked up by
      email, any other by username; no match fails the same way in both. */
  function LoadUserByUsername(users: seq<User>, identifier: string): (r: Result<UserDetails>)
    ensures IsEmail(identifier) ==> (r.Ok? <==> exists u :: u in users && u.email == identifier)
    ensures !IsEmail(identifier) ==> (r.Ok? <==> exists u :: u in users && u.username == identifier)
    ensures r.Err? ==> r.error == UserNotFoundFor(identifier)
    ensures r.Ok? ==> exists u :: (&& u in users && r.value == ToUserDetails(u)
                                   && if IsEmail(identifier) then u.email == identifier else u.username == identifier)
  {
    var found := if IsEmail(identifier) then FindByEmail(users, identifier) else FindByUsername(users, identifier);
    match found
    case None => Err(UserNotFoundFor(identifier))
    case Some(u) => Ok(ToUserDetails(u))
  }

  /** On a table with unique columns, a user is found again by its email when
      the email has the shape of one, and by its username when the username
      does not. */
  lemma LoadByOwnKey(users: seq<User>, u: User)
    requires UsersValid(users)
    requires u in users
    ensures IsEmail(u.email) ==> LoadUserByUsername(users, u.email) == Ok(ToUserDetails(u))
    ensures !IsEmail(u.username) ==> LoadUserByUsername(users, u.username) == Ok(ToUserDetails(u))
  {
    LookupsAreExact(users, u);
  }

  /** The subject of a login token is the identifier the login used. When
      that identifier is classified the way it was used (an email that has
      the shape of one, a username that does not), it loads the user who
      logged in. */
  lemma LoginSubjectLoadsSameUser(users: seq<User>, crypto: Auth.Crypto, req: Auth.LoginRequest)
    requires Auth.LoginOutcome(users, crypto, req).Ok?
    requires req.email.Some? ==> IsEmail(req.email.value)
    requires req.email.None? ==> !IsEmail(req.username.value)
    ensures LoadUserByUsername(users, Auth.Identifier(req).value) == Ok(ToUserDetails(Auth.LoginUser(users, req).value))
  {
  }

  /** Two accounts: Alice chose as her username the address Bob registered with. */
  const Alice := User(1, "bob@mail.ru", "alice@mail.ru", "h", {Auth.RoleUser})
  const Bob := User(2, "bobby", "bob@mail.ru", "h", {Auth.RoleUser})

  lemma AliceAndBobValid()
    ensures UsersValid([Alice, Bob])
  {
    assert Alice.username[0] != Bob.username[1];
    assert Alice.email[0] != Bob.email[0];
  }

  lemma LookupsOfAliceAndBob()
    ensures FindByUsername([Alice, Bob], "bob@mail.ru") == Some(Alice)
    ensures FindByEmail([Alice, Bob], "bob@mail.ru") == Some(Bob)
  {
    assert [Alice, Bob][1..] == [Bob];
    assert Alice.email != "bob@mail.ru" by { assert Alice.email[0] != 'b'; }
  }

  /** A username may have the shape of an email (usernames are only limited
      in length). Then a login by that username issues a token whose subject
      loads another user: the one whose email it is. */
  lemma UsernameShapedLikeEmail()
    ensures UsersValid([Alice, Bob])
    ensures Auth.LoginUser([Alice, Bob], Auth.LoginRequest(None, Some("bob@mail.ru"), "pw")) == Some(Alice)
    ensures LoadUserByUsername([Alice, Bob], "bob@mail.ru") == Ok(ToUserDetails(Bob))
    ensures ToUserDetails(Bob) != ToUserDetails(Alice)
  {
    AliceAndBobValid();
    LookupsOfAliceAndBob();
    MailRuIsEmail();
  }
}
