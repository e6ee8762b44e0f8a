/**
 * The account endpoints as transitions of an abstract user store: register,
 * the "me" profile, password change, password-reset request and
 * confirmation, and logout by refresh-token blacklisting.  Password hashing,
 * the password-strength validators, the email validator, the reset-token
 * generator and refresh-token verification are library code; they enter as
 * the function fields of `Services`.
 */
module Accounts {
  import opened Wrappers
  import opened Http
  import opened Permissions
  import ResetLink
  import Base64Url

  datatype User = User(email: string, name: string, hash: string)

  /** Library collaborators, fixed for the duration of one request. */
  datatype Services = Services(
    /** `set_password`: the stored form of a raw password. */
    makePassword: string -> string,
    /** `check_password`: does the stored hash match this raw password? */
    checkPassword: (string, string) -> bool,
    /** `validate_password`: the configured strength validators, with the user when the caller passes one. */
    validatePassword: (string, Option<User>) -> bool,
    /** The email field's format validator. */
    isEmail: string -> bool,
    /** `default_token_generator.make_token`. */
    makeToken: (UserId, User) -> string,
    /** `default_token_generator.check_token`. */
    checkToken: (UserId, User, string) -> bool,
    /** A refresh token that verifies (signature, expiry, type), mapped to its unique identifier. */
    refreshId: string -> Option<string>)

  /** The one law of hashing the handlers rely on: a hash checks against the password it was made from. */
  ghost predicate HashChecks(svc: Services) {
    forall p :: svc.checkPassword(svc.makePassword(p), p)
  }

  /**
   * A reset token is never blank, holds no NUL, and checks against the user
   * state it was made for (within the generator's validity window).
   */
  ghost predicate TokenChecks(svc: Services) {
    forall id, u :: svc.makeToken(id, u) != "" && NoNullChars(svc.makeToken(id, u)) && svc.checkToken(id, u, svc.makeToken(id, u))
  }

  /** An outbound reset email: recipient and the link's two query parameters. */
  datatype Mail = ResetMail(to: string, uid: string, token: string)

  /**
   * The user table with its auto-increment counter, the refresh-token
   * blacklist, and the mail sent so far.
   */
  datatype State = State(users: map<UserId, User>, nextId: UserId, blacklist: set<string>, outbox: seq<Mail>)

  predicate EmailsUnique(users: map<UserId, User>) {
    forall a, b :: a in users && b in users && users[a].email == users[b].email ==> a == b
  }

  predicate Valid(st: State) {
    (forall id :: id in st.users ==> id < st.nextId) && EmailsUnique(st.users)
  }

  predicate EmailTaken(users: map<UserId, User>, email: string) {
    exists id :: id in users && users[id].email == email
  }

  datatype Field = Email | Password | Name | OldPassword | NewPassword | Uid | Token | Refresh

  datatype Body =
    | Empty
    | Detail(text: string)
    | Messages(text: string)
    | FieldErrors(fields: set<Field>)
    | Profile(email: string, name: string)

  datatype Reply = Reply(status: int, body: Body)

  datatype Outcome = Outcome(reply: Reply, state: State)

  const PasswordChanged := "Пароль успешно изменён."
  const ResetLinkSent := "Если email существует, ссылка для сброса отправлена."
  const PasswordWasReset := "Пароль сброшен успешно."
  const InvalidTicket := "Неверный токен или пользователь."
  const RefreshRequired := "Refresh token is required"
  const LoggedOut := "Successfully logged out."
  const TokenRejected := "Token is blacklisted or invalid"

  /** A character field that is present, not blank, and free of NUL characters. */
  predicate Given(v: Option<string>) {
    v.Some? && v.value != "" && NoNullChars(v.value)
  }

  /** The name field is optional, but a supplied name may not hold a NUL. */
  predicate NameOk(name: Option<string>) {
    name.None? || NoNullChars(name.value)
  }

  function Invalid(st: State, errs: set<Field>): Outcome {
    Outcome(Reply(BAD_REQUEST, FieldErrors(errs)), st)
  }

  function ProfileOf(u: User): Body {
    Profile(u.email, u.name)
  }

  // ---------------------------------------------------------------- register

  /** Email: present, well formed, not yet registered. */
  predicate EmailFieldOk(st: State, svc: Services, email: Option<string>) {
    Given(email) && svc.isEmail(email.value) && !EmailTaken(st.users, email.value)
  }

  /** Password: present, at least 8 characters, and accepted by the configured validators. */
  predicate RegisterPasswordOk(svc: Services, password: Option<string>) {
    Given(password) && |password.value| >= 8 && svc.validatePassword(password.value, None)
  }

  function RegisterErrors(st: State, svc: Services, email: Option<string>, password: Option<string>, name: Option<string>): (errs: set<Field>)
    ensures Email in errs <==> !EmailFieldOk(st, svc, email)
    ensures Password in errs <==> !RegisterPasswordOk(svc, password)
    ensures Name in errs <==> !NameOk(name)
    ensures errs <= {Email, Password, Name}
  {
    (if EmailFieldOk(st, svc, email) then {} else {Email})
    + (if RegisterPasswordOk(svc, password) then {} else {Password})
    + (if NameOk(name) then {} else {Name})
  }

  /** Registration: the new user gets the next key and the hash of the password; the reply shows email and name only. */
  function RegisterUser(st: State, svc: Services, email: Option<string>, password: Option<string>, name: Option<string>): (o: Outcome)
    ensures o.reply.status == CREATED || o == Invalid(st, RegisterErrors(st, svc, email, password, name))
    ensures o.reply.status == CREATED <==> RegisterErrors(st, svc, email, password, name) == {}
  {
    var errs := RegisterErrors(st, svc, email, password, name);
    if errs != {} then Invalid(st, errs)
    else
      var u := User(email.value, name.GetOr(""), svc.makePassword(password.value));
      Outcome(Reply(CREATED, ProfileOf(u)), st.(users := st.users[st.nextId := u], nextId := st.nextId + 1))
  }

  // ---------------------------------------------------------------- me

  /**
   * Profile update: only the name is writable; a supplied email is ignored.
   * The reply shows the stored email and the name after the update.
   */
  function UpdateProfile(st: State, id: UserId, name: Option<string>, email: Option<string>): (o: Outcome)
    requires id in st.users
    ensures o.reply.status == OK <==> NameOk(name)
    ensures o.reply.status != OK ==> o == Invalid(st, {Name})
    ensures o.state == st.(users := o.state.users)
    ensures o.state.users.Keys == st.users.Keys
    ensures forall k :: k in st.users && k != id ==> o.state.users[k] == st.users[k]
    ensures o.state.users[id].email == st.users[id].email && o.state.users[id].hash == st.users[id].hash
    ensures o.reply.status == OK ==>
      && o.state.users[id].name == (if name.Some? then name.value else st.users[id].name)
      && o.reply.body == Profile(st.users[id].email, o.state.users[id].name)
  {
    if !NameOk(name) then Invalid(st, {Name})
    else
      var u := st.users[id].(name := name.GetOr(st.users[id].name));
      Outcome(Reply(OK, ProfileOf(u)), st.(users := st.users[id := u]))
  }

  // ---------------------------------------------------------------- set_password

  function ChangeErrors(svc: Services, u: User, oldPassword: Option<string>, newPassword: Option<string>): (errs: set<Field>)
    ensures OldPassword in errs <==> !(Given(oldPassword) && svc.checkPassword(u.hash, oldPassword.value))
    ensures NewPassword in errs <==> !(Given(newPassword) && svc.validatePassword(newPassword.value, Some(u)))
    ensures errs <= {OldPassword, NewPassword}
  {
    (if Given(oldPassword) && svc.checkPassword(u.hash, oldPassword.value) then {} else {OldPassword})
    + (if Given(newPassword) && svc.validatePassword(newPassword.value, Some(u)) then {} else {NewPassword})
  }

  /** Password change for the requesting user, guarded by the old password; all or nothing. */
  function ChangePassword(st: State, svc: Services, id: UserId, oldPassword: Option<string>, newPassword: Option<string>): (o: Outcome)
    requires id in st.users
    ensures o.reply.status == OK <==> ChangeErrors(svc, st.users[id], oldPassword, newPassword) == {}
    ensures o.reply.status != OK ==> o == Invalid(st, ChangeErrors(svc, st.users[id], oldPassword, newPassword))
    ensures o.reply.status == OK ==>
      && o.reply.body == Detail(PasswordChanged)
      && o.state == st.(users := o.state.users)
      && o.state.users.Keys == st.users.Keys
      && (forall k :: k in st.users && k != id ==> o.state.users[k] == st.users[k])
      && o.state.users[id].email == st.users[id].email
      && o.state.users[id].name == st.users[id].name
      && o.state.users[id].hash == svc.makePassword(newPassword.value)
  {
    var u := st.users[id];
    var errs := ChangeErrors(svc, u, oldPassword, newPassword);
    if errs != {} then Invalid(st, errs)
    else
      Outcome(Reply(OK, Detail(PasswordChanged)),
              st.(users := st.users[id := u.(hash := svc.makePassword(newPassword.value))]))
  }

  // ---------------------------------------------------------------- password reset request

  /** `filter(email=...).first()`: the least key below `bound`, from `from` on, whose user has this email. */
  function FirstWithEmail(users: map<UserId, User>, email: string, from: nat, bound: nat): (r: Option<UserId>)
    ensures r.Some? ==> r.value in users && users[r.value].email == email && from <= r.value < bound
    ensures r.Some? ==> forall k :: from <= k < r.value && k in users ==> users[k].email != email
    ensures r.None? ==> forall k :: from <= k < bound && k in users ==> users[k].email != email
    decreases bound - from
  {
    if from >= bound then None
    else if from in users && users[from].email == email then Some(from)
    else FirstWithEmail(users, email, from + 1, bound)
  }

  /**
   * Reset request: mail a link to the matching user, if any; the reply is the
   * same either way.  Only the outbox changes, by at most one mail, and that
   * mail goes to the requested address with a uid naming a user who has it.
   */
  function RequestReset(st: State, svc: Services, email: Option<string>): (o: Outcome)
    ensures !(Given(email) && svc.isEmail(email.value)) ==> o == Invalid(st, {Email})
    ensures Given(email) && svc.isEmail(email.value) ==> o.reply == Reply(OK, Detail(ResetLinkSent))
    ensures o.state == st.(outbox := o.state.outbox)
    ensures o.state.outbox == st.outbox || |o.state.outbox| == |st.outbox| + 1
    ensures st.outbox <= o.state.outbox
    ensures o.state.outbox != st.outbox ==>
      var mail := o.state.outbox[|st.outbox|];
      && email.Some? && mail.to == email.value
      && ResetLink.DecodeUid(mail.uid).Some?
      && ResetLink.DecodeUid(mail.uid).value in st.users
      && st.users[ResetLink.DecodeUid(mail.uid).value].email == email.value
  {
    if !(Given(email) && svc.isEmail(email.value)) then Invalid(st, {Email})
    else
      var reply := Reply(OK, Detail(ResetLinkSent));
      match FirstWithEmail(st.users, email.value, 0, st.nextId)
      case None => Outcome(reply, st)
      case Some(id) =>
        ResetLink.DecodeEncodeUid(id);
        var mail := ResetMail(email.value, ResetLink.EncodeUid(id), svc.makeToken(id, st.users[id]));
        Outcome(reply, st.(outbox := st.outbox + [mail]))
  }

  // ---------------------------------------------------------------- password reset confirm

  function ConfirmErrors(svc: Services, uid: Option<string>, token: Option<string>, newPassword: Option<string>): (errs: set<Field>)
    ensures Uid in errs <==> !Given(uid)
    ensures Token in errs <==> !Given(token)
    ensures NewPassword in errs <==> !(Given(newPassword) && svc.validatePassword(newPassword.value, None))
    ensures errs <= {Uid, Token, NewPassword}
  {
    (if Given(uid) then {} else {Uid})
    + (if Given(token) then {} else {Token})
    + (if Given(newPassword) && svc.validatePassword(newPassword.value, None) then {} else {NewPassword})
  }

  /** The user a reset link's `uid` names, if it decodes and the user exists. */
  function TicketUser(st: State, uid: string): (r: Option<UserId>)
    ensures r.Some? ==> r.value in st.users && ResetLink.DecodeUid(uid) == Some(r.value)
    ensures r.None? ==> ResetLink.DecodeUid(uid).None? || ResetLink.DecodeUid(uid).value !in st.users
  {
    match ResetLink.DecodeUid(uid)
    case None => None
    case Some(id) => if id in st.users then Some(id) else None
  }

  /**
   * Reset confirmation as the code is written: an undecodable uid or an
   * unknown user raises an exception no handler catches, so the reply is a
   * server error; a token that fails the check is a validation error.
   */
  function ConfirmResetAsWritten(st: State, svc: Services, uid: Option<string>, token: Option<string>, newPassword: Option<string>): (o: Outcome)
    ensures o.reply.status != OK ==> o.state == st
    ensures ConfirmErrors(svc, uid, token, newPassword) != {} || TicketUser(st, uid.value).Some? ==>
      o == ConfirmReset(st, svc, uid, token, newPassword)
    ensures ConfirmErrors(svc, uid, token, newPassword) == {} && TicketUser(st, uid.value).None? ==>
      o == Outcome(Reply(SERVER_ERROR, Empty), st)
  {
    var errs := ConfirmErrors(svc, uid, token, newPassword);
    if errs != {} then Invalid(st, errs)
    else match TicketUser(st, uid.value)
      case None => Outcome(Reply(SERVER_ERROR, Empty), st)
      case Some(id) => ConfirmFor(st, svc, id, token.value, newPassword.value)
  }

  /** Reset confirmation with the evidently intended reply: a bad uid is reported like a bad token. */
  function ConfirmReset(st: State, svc: Services, uid: Option<string>, token: Option<string>, newPassword: Option<string>): (o: Outcome)
    ensures o.reply.status != OK ==> o.state == st && o.reply.status == BAD_REQUEST
  {
    var errs := ConfirmErrors(svc, uid, token, newPassword);
    if errs != {} then Invalid(st, errs)
    else match TicketUser(st, uid.value)
      case None => Outcome(Reply(BAD_REQUEST, Messages(InvalidTicket)), st)
      case Some(id) => ConfirmFor(st, svc, id, token.value, newPassword.value)
  }

  /** The token check and the password write for a resolved user. */
  function ConfirmFor(st: State, svc: Services, id: UserId, token: string, newPassword: string): (o: Outcome)
    requires id in st.users
    ensures o.reply.status == OK || o == Outcome(Reply(BAD_REQUEST, Messages(InvalidTicket)), st)
    ensures o.reply.status == OK <==> svc.checkToken(id, st.users[id], token)
    ensures o.reply.status == OK ==>
      && o.reply.body == Detail(PasswordWasReset)
      && o.state == st.(users := st.users[id := st.users[id].(hash := svc.makePassword(newPassword))])
  {
    var u := st.users[id];
    if !svc.checkToken(id, u, token) then Outcome(Reply(BAD_REQUEST, Messages(InvalidTicket)), st)
    else Outcome(Reply(OK, Detail(PasswordWasReset)), st.(users := st.users[id := u.(hash := svc.makePassword(newPassword))]))
  }

  // ---------------------------------------------------------------- logout

  /**
   * Logout: a missing field and a token that does not verify or is already
   * blacklisted are 400 with a detail; a blank field, or one holding a NUL,
   * is a field error; a good token is blacklisted and answered with 205.
   */
  function Revoke(st: State, svc: Services, refresh: Option<string>): (o: Outcome)
    ensures refresh.None? ==> o == Outcome(Reply(BAD_REQUEST, Detail(RefreshRequired)), st)
    ensures o.reply.status == RESET_CONTENT <==>
      Given(refresh) && svc.refreshId(refresh.value).Some? && svc.refreshId(refresh.value).value !in st.blacklist
    ensures o.reply.status == RESET_CONTENT ==> o.state == st.(blacklist := st.blacklist + {svc.refreshId(refresh.value).value})
    ensures o.reply.status != RESET_CONTENT ==> o.state == st && o.reply.status == BAD_REQUEST
  {
    if refresh.None? then Outcome(Reply(BAD_REQUEST, Detail(RefreshRequired)), st)
    else if !Given(refresh) then Invalid(st, {Refresh})
    else match svc.refreshId(refresh.value)
      case None => Outcome(Reply(BAD_REQUEST, Detail(TokenRejected)), st)
      case Some(jti) =>
        if jti in st.blacklist then Outcome(Reply(BAD_REQUEST, Detail(TokenRejected)), st)
        else Outcome(Reply(RESET_CONTENT, Detail(LoggedOut)), st.(blacklist := st.blacklist + {jti}))
  }

  // ---------------------------------------------------------------- views

  datatype Request =
    | Register(email: Option<string>, password: Option<string>, name: Option<string>)
    | GetMe
    | UpdateMe(name: Option<string>, email: Option<string>)
    | SetPassword(oldPassword: Option<string>, newPassword: Option<string>)
    | ResetRequest(email: Option<string>)
    | ResetConfirm(uid: Option<string>, token: Option<string>, newPassword: Option<string>)
    | Logout(refresh: Option<string>)
  {
    /**
     * Whether the view runs the authenticators: the logout view inherits the
     * token views' empty `authentication_classes`, so no credentials are read.
     */
    predicate Authenticates() {
      !Logout?
    }

    /** Each view's `permission_classes`. */
    function PermissionClasses(): seq<Permission> {
      if GetMe? || UpdateMe? || SetPassword? then [IsAuthenticated] else [AllowAny]
    }
  }

  /** A token naming a user no longer in the table is rejected by the authenticator. */
  function Authenticate(st: State, p: Principal): (q: Principal)
    ensures q.Authenticated? ==> q.user in st.users
    ensures q.Authenticated? <==> p.Authenticated? && p.user in st.users
    ensures q.Authenticated? ==> q == p
    ensures !p.Authenticated? ==> q == p
  {
    if p.Authenticated? && p.user !in st.users then BadCredentials else p
  }

  /** One request: authentication, the view's permission check, then the view; failures change nothing. */
  function Handle(st: State, svc: Services, p: Principal, req: Request): (o: Outcome)
    ensures o.reply.status >= 400 ==> o.state == st
    ensures p.BadCredentials? && req.Authenticates() ==> o.reply.status == UNAUTHORIZED
    ensures (req.GetMe? || req.UpdateMe? || req.SetPassword?) && !p.Authenticated? ==> o.reply.status == UNAUTHORIZED
  {
    var q := if req.Authenticates() then Authenticate(st, p) else Anonymous;
    var d := CheckPermissions(req.PermissionClasses(), q);
    if d != Allowed then Outcome(Reply(d.Status(), Empty), st)
    else match req
      case Register(email, password, name) => RegisterUser(st, svc, email, password, name)
      case GetMe => Outcome(Reply(OK, ProfileOf(st.users[q.user])), st)
      case UpdateMe(name, email) => UpdateProfile(st, q.user, name, email)
      case SetPassword(oldPassword, newPassword) => ChangePassword(st, svc, q.user, oldPassword, newPassword)
      case ResetRequest(email) => RequestReset(st, svc, email)
      case ResetConfirm(uid, token, newPassword) => ConfirmReset(st, svc, uid, token, newPassword)
      case Logout(refresh) => Revoke(st, svc, refresh)
  }

  // ---------------------------------------------------------------- properties

  /** Endpoints that admit anonymous callers: register, reset request, reset confirm and logout. */
  lemma AnonymousAdmitted(st: State, svc: Services, req: Request)
    requires !(req.GetMe? || req.UpdateMe? || req.SetPassword?)
    ensures Handle(st, svc, Anonymous, req).reply.status != UNAUTHORIZED
  {
  }

  /** Every request keeps keys below the counter and emails unique. */
  lemma HandleKeepsValid(st: State, svc: Services, p: Principal, req: Request)
    requires Valid(st)
    ensures Valid(Handle(st, svc, p, req).state)
  {
    var o := Handle(st, svc, p, req);
    if o.state != st {
      if req.Register? {
        RegisterKeepsValid(st, svc, req.email, req.password, req.name);
      } else {
        EmailsKeptKeepsValid(st, o.state);
      }
    }
  }

  /** Registration keeps keys below the counter and emails unique: the new email was not taken. */
  lemma RegisterKeepsValid(st: State, svc: Services, email: Option<string>, password: Option<string>, name: Option<string>)
    requires Valid(st)
    ensures Valid(RegisterUser(st, svc, email, password, name).state)
  {
  }

  /** A step that keeps the keys, the counter and every email keeps the state valid. */
  lemma EmailsKeptKeepsValid(st: State, st': State)
    requires Valid(st) && st'.nextId == st.nextId && st'.users.Keys == st.users.Keys
    requires forall k :: k in st.users ==> st'.users[k].email == st.users[k].email
    ensures Valid(st')
  {
  }

  /** A password shorter than 8 characters fails registration, and no user appears. */
  lemma ShortPasswordRejected(st: State, svc: Services, email: Option<string>, password: string, name: Option<string>)
    requires |password| < 8
    ensures var o := RegisterUser(st, svc, email, Some(password), name);
      o.reply.status == BAD_REQUEST && o.reply.body.FieldErrors? && Password in o.reply.body.fields && o.state == st
  {
  }

  /**
   * A successful registration stores exactly one new user, under a fresh key,
   * whose hash checks against the submitted password; the reply carries
   * email and name and nothing else.
   */
  lemma RegisteredUserChecks(st: State, svc: Services, email: Option<string>, password: Option<string>, name: Option<string>)
    requires Valid(st) && HashChecks(svc)
    ensures var o := RegisterUser(st, svc, email, password, name);
      o.reply.status == CREATED ==>
        && st.nextId !in st.users
        && o.state.users.Keys == st.users.Keys + {st.nextId}
        && (forall id :: id in st.users ==> o.state.users[id] == st.users[id])
        && o.state.users[st.nextId].email == email.value
        && svc.checkPassword(o.state.users[st.nextId].hash, password.value)
        && o.reply.body == Profile(email.value, name.GetOr(""))
  {
  }

  /** A second registration with a stored email fails on the email field and changes nothing. */
  lemma DuplicateEmailRejected(st: State, svc: Services, id: UserId, password: Option<string>, name: Option<string>)
    requires id in st.users
    ensures var o := RegisterUser(st, svc, Some(st.users[id].email), password, name);
      o.reply.status == BAD_REQUEST && Email in o.reply.body.fields && o.state == st
  {
  }

  /**
   * The profile endpoint reads and writes the requester's record only, and no
   * email ever changes; a name holding a NUL is refused.
   */
  lemma ProfileIsOwn(st: State, svc: Services, u: UserId, name: Option<string>, email: Option<string>)
    requires u in st.users
    ensures Handle(st, svc, Authenticated(u), GetMe).reply == Reply(OK, Profile(st.users[u].email, st.users[u].name))
    ensures var o := Handle(st, svc, Authenticated(u), UpdateMe(name, email));
      && (o.reply.status == OK <==> NameOk(name))
      && o.state.users.Keys == st.users.Keys
      && (forall id :: id in st.users ==> o.state.users[id].email == st.users[id].email)
      && (forall id :: id in st.users && id != u ==> o.state.users[id] == st.users[id])
      && o.state.users[u].hash == st.users[u].hash
      && (name.Some? && NameOk(name) ==> o.state.users[u].name == name.value)
  {
  }

  /** A wrong old password is a validation error on that field and the stored hash stays. */
  lemma WrongOldPasswordRejected(st: State, svc: Services, u: UserId, oldPassword: string, newPassword: Option<string>)
    requires u in st.users && !svc.checkPassword(st.users[u].hash, oldPassword)
    ensures var o := Handle(st, svc, Authenticated(u), SetPassword(Some(oldPassword), newPassword));
      o.reply.status == BAD_REQUEST && OldPassword in o.reply.body.fields && o.state == st
  {
  }

  /** After a successful change the new password checks, the old one had to check before, and no other user is touched. */
  lemma NewPasswordChecks(st: State, svc: Services, u: UserId, oldPassword: Option<string>, newPassword: Option<string>)
    requires u in st.users && HashChecks(svc)
    ensures var o := Handle(st, svc, Authenticated(u), SetPassword(oldPassword, newPassword));
      o.reply.status == OK ==>
        && svc.checkPassword(st.users[u].hash, oldPassword.value)
        && svc.checkPassword(o.state.users[u].hash, newPassword.value)
        && o.state.users.Keys == st.users.Keys
        && o.state.users[u].email == st.users[u].email
        && (forall id :: id in st.users && id != u ==> o.state.users[id] == st.users[id])
    ensures var o := Handle(st, svc, Authenticated(u), SetPassword(oldPassword, newPassword));
      o.reply.status == OK || o.state == st
  {
  }

  /**
   * A reset request with a well-formed email sends one mail exactly when a
   * user has that email, changes no user either way, and always gets the
   * same reply.
   */
  lemma ResetRequestSilent(st: State, svc: Services, p: Principal, email: string)
    requires Valid(st) && !p.BadCredentials? && !(p.Authenticated? && p.user !in st.users)
    requires Given(Some(email)) && svc.isEmail(email)
    ensures var o := Handle(st, svc, p, ResetRequest(Some(email)));
      && o.reply == Reply(OK, Detail(ResetLinkSent))
      && o.state.users == st.users
      && o.state.blacklist == st.blacklist
      && (EmailTaken(st.users, email) <==> o.state.outbox != st.outbox)
      && (EmailTaken(st.users, email) ==>
            (exists id :: id in st.users && st.users[id].email == email &&
               o.state.outbox == st.outbox + [ResetMail(email, ResetLink.EncodeUid(id), svc.makeToken(id, st.users[id]))]))
  {
    var o := Handle(st, svc, p, ResetRequest(Some(email)));
    if EmailTaken(st.users, email) {
      var id :| id in st.users && st.users[id].email == email;
      assert FirstWithEmail(st.users, email, 0, st.nextId).Some?;
    }
  }

  /**
   * The link mailed on request works: confirming with its uid and token and
   * an acceptable new password succeeds for that very user, whose password
   * is then the new one.
   */
  lemma ResetRoundTrip(st: State, svc: Services, id: UserId, newPassword: string)
    requires Valid(st) && HashChecks(svc) && TokenChecks(svc)
    requires id in st.users && Given(Some(newPassword)) && svc.validatePassword(newPassword, None)
    requires svc.isEmail(st.users[id].email) && Given(Some(st.users[id].email))
    ensures var st1 := RequestReset(st, svc, Some(st.users[id].email)).state;
      && |st1.outbox| == |st.outbox| + 1
      && var mail := st1.outbox[|st.outbox|];
         && mail.to == st.users[id].email
         && var o := ConfirmReset(st1, svc, Some(mail.uid), Some(mail.token), Some(newPassword));
            && o.reply == Reply(OK, Detail(PasswordWasReset))
            && svc.checkPassword(o.state.users[id].hash, newPassword)
            && (forall k :: k in st.users && k != id ==> o.state.users[k] == st.users[k])
  {
    var email := st.users[id].email;
    var found := FirstWithEmail(st.users, email, 0, st.nextId);
    assert found.Some?;
    assert found.value == id;
    var mail := ResetMail(email, ResetLink.EncodeUid(id), svc.makeToken(id, st.users[id]));
    var st1 := RequestReset(st, svc, Some(email)).state;
    assert st1 == st.(outbox := st.outbox + [mail]);
    ResetLink.DecodeEncodeUid(id);
    assert TicketUser(st1, mail.uid) == Some(id);
    assert svc.checkToken(id, st1.users[id], mail.token);
  }

  /** A token that fails the check is a validation error and the password stays. */
  lemma BadTokenRejected(st: State, svc: Services, uid: string, token: string, newPassword: Option<string>)
    requires uid != "" && token != ""
    requires forall id :: ResetLink.DecodeUid(uid) == Some(id) && id in st.users ==> !svc.checkToken(id, st.users[id], token)
    ensures var o := ConfirmReset(st, svc, Some(uid), Some(token), newPassword);
      o.reply.status == BAD_REQUEST && o.state == st
  {
  }

  /** Logout reads no credentials: whoever calls, the answer depends on the refresh token alone. */
  lemma LogoutIgnoresCredentials(st: State, svc: Services, p: Principal, refresh: Option<string>)
    ensures Handle(st, svc, p, Logout(refresh)) == Revoke(st, svc, refresh)
  {
  }

  /** Logging out twice with one refresh token: 205, then 400 with the blacklisted detail. */
  lemma LogoutTwice(st: State, svc: Services, p: Principal, refresh: string)
    requires Given(Some(refresh)) && svc.refreshId(refresh).Some? && svc.refreshId(refresh).value !in st.blacklist
    ensures var first := Handle(st, svc, p, Logout(Some(refresh)));
      && first.reply == Reply(RESET_CONTENT, Detail(LoggedOut))
      && svc.refreshId(refresh).value in first.state.blacklist
      && Handle(first.state, svc, p, Logout(Some(refresh))) == Outcome(Reply(BAD_REQUEST, Detail(TokenRejected)), first.state)
  {
  }

  /**
   * Confirmation succeeds exactly when all three fields are given, the new
   * password passes the validators, the uid names a stored user, and the
   * token checks for that user; only that user's hash changes.
   */
  lemma ConfirmResetSucceedsIff(st: State, svc: Services, uid: Option<string>, token: Option<string>, newPassword: Option<string>)
    ensures var o := ConfirmReset(st, svc, uid, token, newPassword);
      o.reply.status == OK <==>
        && ConfirmErrors(svc, uid, token, newPassword) == {}
        && TicketUser(st, uid.value).Some?
        && svc.checkToken(TicketUser(st, uid.value).value, st.users[TicketUser(st, uid.value).value], token.value)
    ensures var o := ConfirmReset(st, svc, uid, token, newPassword);
      o.reply.status == OK ==>
        && var id := TicketUser(st, uid.value).value;
           && o.state == st.(users := st.users[id := st.users[id].(hash := svc.makePassword(newPassword.value))])
  {
  }

  /**
   * The uid "!": the lenient decoder drops the character and yields no bytes,
   * so the key lookup gets an empty key and raises; `ResetLink.DecodeUid`
   * rejects it outright.  Either way no user is named: the code as written
   * answers 500, the corrected handler 400.
   */
  lemma GarbledUidIsServerError(st: State, svc: Services, token: string, newPassword: string)
    requires Given(Some(token)) && Given(Some(newPassword)) && svc.validatePassword(newPassword, None)
    ensures ConfirmResetAsWritten(st, svc, Some("!"), Some(token), Some(newPassword)).reply.status == SERVER_ERROR
    ensures ConfirmReset(st, svc, Some("!"), Some(token), Some(newPassword)).reply == Reply(BAD_REQUEST, Messages(InvalidTicket))
  {
    assert ResetLink.DecodeUid("!") == None by {
      assert !Base64Url.IsUrlSafe('!');
    }
  }

  /**
   * A well-formed link for a key no user holds (never issued, or its user
   * deleted): the code as written answers 500, the corrected handler 400.
   */
  lemma UnknownUserIsServerError(st: State, svc: Services, token: string, newPassword: string)
    requires Valid(st)
    requires Given(Some(token)) && Given(Some(newPassword)) && svc.validatePassword(newPassword, None)
    ensures var uid := ResetLink.EncodeUid(st.nextId);
      ConfirmResetAsWritten(st, svc, Some(uid), Some(token), Some(newPassword)).reply.status == SERVER_ERROR
    ensures var uid := ResetLink.EncodeUid(st.nextId);
      ConfirmReset(st, svc, Some(uid), Some(token), Some(newPassword)).reply == Reply(BAD_REQUEST, Messages(InvalidTicket))
  {
    ResetLink.DecodeEncodeUid(st.nextId);
  }
}
