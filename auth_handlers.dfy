/** The account endpoints: registering, activating, logging in, asking for
    a password reset and resetting the password.  Password hashing, the
    check of a password against its hash, token generation and hashing, the
    clock, the date of today and the mail transport are parameters. */
module AuthHandlers {
  import opened Wrappers
  import opened Rel
  import opened Text
  import opened Dates
  import opened Validators
  import opened Schema
  import opened Storage
  import opened Replies

  /** `MIN_USER_AGE`. */
  const MinUserAge := 15

  /** How long an activation link is good for: three days, in seconds. */
  const InvitationLifetime := 24 * 3 * 60 * 60

  /** How long a password reset link is good for: fifteen minutes. */
  const PasswordResetLifetime := 15 * 60

  /** The registration form, normalised as the handler reads it, passes
      every check that does not read the database. */
  predicate RegistrationWellFormed(email: string, username: string, password: string, dateOfBirth: string, today: Date)
  {
    ParseDate(dateOfBirth).Some?
    && email != "" && username != "" && password != ""
    && |username| >= 3
    && IsEmailValid(email)
    && PasswordStrong(password)
    && CalculateAge(ParseDate(dateOfBirth).value, today) >= MinUserAge
  }

  /** The registration checks in the handler's order, on the trimmed and
      lower-cased e-mail, the trimmed username and password and the date of
      birth as sent: the first one that fails gives the message. */
  function RegistrationRejection(s: Store, email: string, username: string, password: string, dateOfBirth: string,
                                 today: Date)
    : (r: Option<string>)
    reads s`users
    ensures ParseDate(dateOfBirth).None? <==> r == Some("invalid date_of_birth field")
    ensures r == Some("all fields are required") <==>
      ParseDate(dateOfBirth).Some? && (email == "" || username == "" || password == "")
    ensures r == Some("username should have atleast 3 characters") <==>
      ParseDate(dateOfBirth).Some? && email != "" && username != "" && password != "" && |username| < 3
    ensures r == Some("invalid email format") <==>
      ParseDate(dateOfBirth).Some? && email != "" && username != "" && password != ""
      && |username| >= 3 && !IsEmailValid(email)
    ensures r == Some("weak password") <==>
      ParseDate(dateOfBirth).Some? && email != "" && username != "" && password != ""
      && |username| >= 3 && IsEmailValid(email) && !PasswordStrong(password)
    ensures r == Some("user needs to be atleast age 15 to register") <==>
      ParseDate(dateOfBirth).Some? && email != "" && username != "" && password != ""
      && |username| >= 3 && IsEmailValid(email) && PasswordStrong(password)
      && CalculateAge(ParseDate(dateOfBirth).value, today) < MinUserAge
    ensures r == Some("user already exists") <==>
      RegistrationWellFormed(email, username, password, dateOfBirth, today)
      && exists u :: u in s.users && ActiveByEmailOrUsername(email, username)(u)
    ensures r.None? <==>
      RegistrationWellFormed(email, username, password, dateOfBirth, today)
      && forall u :: u in s.users ==> !ActiveByEmailOrUsername(email, username)(u)
  {
    var dob := ParseDate(dateOfBirth);
    if dob.None? then Some("invalid date_of_birth field")
    else if email == "" || username == "" || password == "" then Some("all fields are required")
    else if |username| < 3 then Some("username should have atleast 3 characters")
    else if !IsEmailValid(email) then Some("invalid email format")
    else if !PasswordStrong(password) then Some("weak password")
    else if CalculateAge(dob.value, today) < MinUserAge then Some("user needs to be atleast age 15 to register")
    else
      var active := Filter(s.users, ActiveByEmailOrUsername(email, username));
      if active != [] then
        assert active[0] in active;
        Some("user already exists")
      else None
  }

  /** An account that was never activated does not block a new
      registration with the same e-mail and username. */
  lemma InactiveAccountDoesNotBlock(s: Store, email: string, username: string, password: string, dateOfBirth: string,
                                    today: Date)
    requires RegistrationWellFormed(email, username, password, dateOfBirth, today)
    requires forall u :: u in s.users && (u.email == email || u.username == username) ==> !u.isActive
    ensures RegistrationRejection(s, email, username, password, dateOfBirth, today).None?
  {
  }

  /** `RegisterUserHandler`: creates an inactive account and its activation
      token, then mails the link.  `hash` is the password hash; the
      insert failures and the mail failure are oracles.  A mail failure is
      reported after the account has been stored. */
  method RegisterUserHandler(s: Store, email: string, username: string, password: string, dateOfBirth: string,
                             token: string, hash: string -> string, today: Date, now: int,
                             hashFails: bool, userInsertFails: bool, invitationInsertFails: bool, mailFails: bool)
    returns (reply: Reply)
    modifies s`users, s`invitations, s`nextUserId
    requires s.UsersValid()
    ensures s.UsersValid()
    ensures old(RegistrationRejection(s, ToLower(TrimSpace(email)), TrimSpace(username), TrimSpace(password), dateOfBirth, today)).Some? ==>
      reply == Reply(StatusBadRequest,
                     old(RegistrationRejection(s, ToLower(TrimSpace(email)), TrimSpace(username), TrimSpace(password), dateOfBirth, today)).value)
      && s.users == old(s.users) && s.invitations == old(s.invitations) && s.nextUserId == old(s.nextUserId)
    ensures old(RegistrationRejection(s, ToLower(TrimSpace(email)), TrimSpace(username), TrimSpace(password), dateOfBirth, today)).None?
            && hashFails ==>
      reply == Reply(StatusInternalServerError, InternalServerError)
      && s.users == old(s.users) && s.invitations == old(s.invitations) && s.nextUserId == old(s.nextUserId)
    ensures old(RegistrationRejection(s, ToLower(TrimSpace(email)), TrimSpace(username), TrimSpace(password), dateOfBirth, today)).None?
            && !hashFails && (userInsertFails || invitationInsertFails) ==>
      reply == Reply(StatusInternalServerError, InternalServerError)
      && s.users == old(s.users) && s.invitations == old(s.invitations)
    ensures old(RegistrationRejection(s, ToLower(TrimSpace(email)), TrimSpace(username), TrimSpace(password), dateOfBirth, today)).None?
            && !hashFails && !userInsertFails && !invitationInsertFails ==>
      var user := NewUser(old(s.nextUserId), ToLower(TrimSpace(email)), TrimSpace(username), hash(TrimSpace(password)),
                          dateOfBirth, s.defaultIsPublic, now);
      s.users == old(s.users) + [user]
      && s.invitations == old(s.invitations) + [UserInvitation(token, user.id, now + InvitationLifetime)]
      && reply == if mailFails then Reply(StatusInternalServerError, InternalServerError)
                  else Reply(StatusOK, "registered user successfully and sent verification mail")
  {
    var userEmail := ToLower(TrimSpace(email));
    var userUsername := TrimSpace(username);
    var userPassword := TrimSpace(password);
    ghost var rejection := RegistrationRejection(s, userEmail, userUsername, userPassword, dateOfBirth, today);
    var dob := ParseDate(dateOfBirth);
    if dob.None? {
      reply := Reply(StatusBadRequest, "invalid date_of_birth field");
      return;
    }
    if userEmail == "" || userUsername == "" || userPassword == "" {
      reply := Reply(StatusBadRequest, "all fields are required");
      return;
    }
    if |userUsername| < 3 {
      reply := Reply(StatusBadRequest, "username should have atleast 3 characters");
      return;
    }
    if !IsEmailValid(userEmail) {
      reply := Reply(StatusBadRequest, "invalid email format");
      return;
    }
    var strong := IsPasswordStrong(userPassword);
    if !strong {
      reply := Reply(StatusBadRequest, "weak password");
      return;
    }
    if CalculateAge(dob.value, today) < MinUserAge {
      reply := Reply(StatusBadRequest, "user needs to be atleast age 15 to register");
      return;
    }
    var activeUsers := s.GetActiveUsersByEmailOrUsername(userEmail, userUsername);
    if |activeUsers| != 0 {
      reply := Reply(StatusBadRequest, "user already exists");
      return;
    }
    assert rejection.None?;
    if hashFails {
      reply := Reply(StatusInternalServerError, InternalServerError);
      return;
    }
    var expiration := now + InvitationLifetime;
    var created := s.CreateUserAndInvitation(userEmail, userUsername, hash(userPassword), dateOfBirth, token, expiration,
                                             now, userInsertFails, invitationInsertFails);
    if created.Err? {
      reply := Reply(StatusInternalServerError, InternalServerError);
      return;
    }
    if mailFails {
      reply := Reply(StatusInternalServerError, InternalServerError);
      return;
    }
    reply := Reply(StatusOK, "registered user successfully and sent verification mail");
  }

  /** `ActivateUserHandler`: activates the account of a live invitation
      token; every failure is a 500.  The session cookie is not modelled. */
  method ActivateUserHandler(s: Store, token: string, now: int) returns (reply: Reply)
    modifies s`users
    requires s.UsersValid()
    ensures s.UsersValid()
    ensures reply.status == StatusOK <==>
      LiveInvitation(s.invitations, token, now).Some?
      && HasKey(old(s.users), UserKey, LiveInvitation(s.invitations, token, now).value.userId)
    ensures reply.status == StatusOK ==>
      var user := old(s.GetUserById(LiveInvitation(s.invitations, token, now).value.userId)).value;
      reply.message == "user activated" && s.users == Activated(old(s.users), user.id, user.email)
    ensures reply.status != StatusOK ==>
      reply == Reply(StatusInternalServerError, InternalServerError) && s.users == old(s.users)
  {
    var activeUser := s.ActivateUser(token, now);
    if activeUser.Err? {
      reply := Reply(StatusInternalServerError, InternalServerError);
      return;
    }
    ghost var id := LiveInvitation(s.invitations, token, now).value.userId;
    assert old(s.GetUserById(id)).Some? && activeUser.value in old(s.users);
    UniqueSameKey(old(s.users), UserKey, activeUser.value, old(s.GetUserById(id)).value);
    reply := Reply(StatusOK, "user activated");
  }

  /** The outcome of a login: the reply's error, or the user whose session
      starts. */
  datatype LoginResult = LoginRejected(reply: Reply) | LoggedIn(user: User)

  /** `LoginUserHandler`: logs in by e-mail when one is sent, by username
      otherwise.  `matches(hash, password)` is the password check.  An
      unknown account and a wrong password get the same message. */
  function LoginUserHandler(s: Store, email: string, username: string, password: string,
                            matches: (string, string) -> bool)
    : (r: LoginResult)
    reads s`users
    ensures email == "" && username == "" ==>
      r == LoginRejected(Reply(StatusBadRequest, "either email or username is required , both cannot be empty"))
    ensures email != "" ==>
      var found := s.GetActiveUserByEmail(ToLower(TrimSpace(email)));
      (r.LoggedIn? <==> found.Some? && matches(found.value.password, TrimSpace(password)))
      && (r.LoginRejected? ==> r.reply == Reply(StatusBadRequest, "invalid email or password"))
    ensures email == "" && username != "" ==>
      var found := s.GetActiveUserByUsername(TrimSpace(username));
      (r.LoggedIn? <==> found.Some? && matches(found.value.password, TrimSpace(password)))
      && (r.LoginRejected? ==> r.reply == Reply(StatusBadRequest, "invalid username or password"))
    ensures r.LoggedIn? ==> r.user in s.users && r.user.isActive && matches(r.user.password, TrimSpace(password))
    ensures r.LoggedIn? && email != "" ==> r.user.email == ToLower(TrimSpace(email))
    ensures r.LoggedIn? && email == "" ==> r.user.username == TrimSpace(username)
  {
    if email == "" && username == "" then
      LoginRejected(Reply(StatusBadRequest, "either email or username is required , both cannot be empty"))
    else
      var byEmail := email != "";
      var failure := if byEmail then "invalid email or password" else "invalid username or password";
      var user := if byEmail then s.GetActiveUserByEmail(ToLower(TrimSpace(email)))
                  else s.GetActiveUserByUsername(TrimSpace(username));
      if user.None? then LoginRejected(Reply(StatusBadRequest, failure))
      else if !matches(user.value.password, TrimSpace(password)) then LoginRejected(Reply(StatusBadRequest, failure))
      else LoggedIn(user.value)
  }

  /** The message of a successful login. */
  const LoginSucceeded := Reply(StatusOK, "user logged in successfully")

  /** When an e-mail is given the username plays no part: the login
      outcome is the same whatever username comes with it. */
  lemma LoginIgnoresUsernameGivenEmail(s: Store, email: string, password: string, other: string,
                                       matches: (string, string) -> bool)
    requires email != ""
    ensures LoginUserHandler(s, email, "", password, matches) == LoginUserHandler(s, email, other, password, matches)
  {
  }

  /** `ForgotPasswordHandler`: stores a reset token hash for an active
      account, good for fifteen minutes, and mails the link.  A mail
      failure is reported after the token has been stored. */
  method ForgotPasswordHandler(s: Store, email: string, tokenHash: string, now: int, mailFails: bool)
    returns (reply: Reply)
    modifies s`passwordResets
    ensures var e := ToLower(TrimSpace(email));
      (e == "" ==> reply == Reply(StatusBadRequest, "email is required"))
      && (e != "" && !IsEmailValid(e) ==> reply == Reply(StatusBadRequest, "invalid email"))
      && (IsEmailValid(e) && s.GetActiveUserByEmail(e).None? ==> reply == Reply(StatusBadRequest, "user account not found"))
      && (!IsEmailValid(e) || s.GetActiveUserByEmail(e).None? ==> s.passwordResets == old(s.passwordResets))
      && (IsEmailValid(e) && s.GetActiveUserByEmail(e).Some? ==>
            s.passwordResets == old(s.passwordResets)
              + [PasswordReset(tokenHash, s.GetActiveUserByEmail(e).value.id, now + PasswordResetLifetime)]
            && reply == if mailFails then Reply(StatusInternalServerError, InternalServerError) else Reply(StatusOK, ""))
  {
    var userEmail := ToLower(TrimSpace(email));
    if userEmail == "" {
      reply := Reply(StatusBadRequest, "email is required");
      return;
    }
    if !IsEmailValid(userEmail) {
      reply := Reply(StatusBadRequest, "invalid email");
      return;
    }
    var activeUser := s.GetActiveUserByEmail(userEmail);
    if activeUser.None? {
      reply := Reply(StatusBadRequest, "user account not found");
      return;
    }
    var created := s.CreatePasswordResetForUser(tokenHash, activeUser.value.id, now + PasswordResetLifetime);
    if mailFails {
      reply := Reply(StatusInternalServerError, InternalServerError);
      return;
    }
    reply := Reply(StatusOK, "");
  }

  /** `ResetUserPasswordHandler`: sets the hash of the trimmed new password
      on the account of a live reset token (`tokenHash` is the hash of the
      token in the link). */
  method ResetUserPasswordHandler(s: Store, password: string, tokenHash: string, hash: string -> string, hashFails: bool,
                                  now: int)
    returns (reply: Reply)
    modifies s`users
    requires s.UsersValid()
    ensures s.UsersValid()
    ensures var p := TrimSpace(password);
      (p == "" ==> reply == Reply(StatusBadRequest, "password is required"))
      && (p != "" && !PasswordStrong(p) ==> reply == Reply(StatusBadRequest, "weak password"))
      && (reply.status == StatusOK <==>
            PasswordStrong(p) && !hashFails && LiveReset(s.passwordResets, tokenHash, now).Some?
            && HasKey(old(s.users), UserKey, LiveReset(s.passwordResets, tokenHash, now).value.userId))
      && (reply.status == StatusOK ==>
            reply.message == "reset password successfully"
            && s.users == Update(old(s.users), KeyIs(UserKey, LiveReset(s.passwordResets, tokenHash, now).value.userId),
                                 WithPassword(hash(p))))
      && (reply.status != StatusOK ==> s.users == old(s.users))
      && (PasswordStrong(p) && reply.status != StatusOK ==> reply == Reply(StatusInternalServerError, InternalServerError))
  {
    var newPassword := TrimSpace(password);
    if newPassword == "" {
      reply := Reply(StatusBadRequest, "password is required");
      return;
    }
    var strong := IsPasswordStrong(newPassword);
    if !strong {
      reply := Reply(StatusBadRequest, "weak password");
      return;
    }
    if hashFails {
      reply := Reply(StatusInternalServerError, InternalServerError);
      return;
    }
    var reset := s.ResetPassword(hash(newPassword), tokenHash, now);
    if reset.Failure? {
      reply := Reply(StatusInternalServerError, InternalServerError);
      return;
    }
    reply := Reply(StatusOK, "reset password successfully");
  }
}
