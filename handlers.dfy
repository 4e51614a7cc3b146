/** The authentication controller: the five registration and login handlers
    over the record store, and the email-configuration self-check. Each
    handler answers with a `Reply`, whose `Status()` is the HTTP status. */
module Handlers {
  import opened Records
  import opened Mail

  /** The payload handed to the token signer, and the signing options. */
  datatype Claims = Claims(id: int, uniqueId: string)

  /** Seconds in "2h". */
  const TokenLifetimeSeconds: int := 2 * 60 * 60

  /** A signed bearer token, represented by what goes into the signer. */
  datatype Token = Token(payload: Claims, secret: string, expiresInSeconds: int)

  datatype Profile = Profile(uniqueId: string, fullName: Option<string>)

  /** The setting the self-check names as missing. */
  datatype Setting = ApiKeySetting | MailFromSetting

  /** The handlers' answers, one constructor per distinct response. */
  datatype Reply =
    | TableMissing
    | UserNotFound
    | AlreadyRegistered
    | UserFound(email: Option<string>)
    | UniqueIdRequired
    | EmailNotConfigured
    | OtpSendFailed
    | OtpSent(sentTo: string)
    | InvalidOtp
    | OtpExpired
    | OtpVerified
    | PasswordCreated
    | InvalidPassword
    | LoginSuccessful(token: Token, user: Profile)
    | ServerError
    | ConfigIncomplete(missing: Setting)
    | ConfigInvalid
    | EmailTestFailed
    | ConfigReady
  {
    function Status(): int {
      match this
      case TableMissing => 500
      case UserNotFound => 404
      case AlreadyRegistered => 400
      case UserFound(_) => 200
      case UniqueIdRequired => 400
      case EmailNotConfigured => 400
      case OtpSendFailed => 500
      case OtpSent(_) => 200
      case InvalidOtp => 400
      case OtpExpired => 400
      case OtpVerified => 200
      case PasswordCreated => 200
      case InvalidPassword => 401
      case LoginSuccessful(_, _) => 200
      case ServerError => 500
      case ConfigIncomplete(_) => 400
      case ConfigInvalid => 400
      case EmailTestFailed => 500
      case ConfigReady => 200
    }
  }

  /** The `otp` field of a verify request body: absent, JSON null, or a string. */
  datatype Submitted = Missing | JsonNull | Text(s: string)

  /** A store-changing handler's effect: its reply, the store afterwards, and
      the email helper's outcome if the helper was invoked. */
  datatype Step = Step(reply: Reply, users: Users, mail: Option<Delivery>)

  const OtpSubject: string := "OTP Verification"

  function OtpHtml(code: OtpCode): string {
    "<p>Your OTP is <b>" + code + "</b>. It expires in 5 minutes.</p>"
  }

  const TestSubject: string := "Brevo Test Email"
  const TestHtml: string := "<p>Your Brevo integration works!</p>"

  /* ---------------------------- check user ---------------------------- */

  /** checkUser: a missing users table is reported before any lookup; then an
      unknown identifier, then an already registered user; otherwise the
      stored email is returned. The store is only read. */
  function CheckUser(users: Users, tableExists: bool, uniqueId: string): (r: Reply)
    ensures !tableExists ==> r == TableMissing
    ensures r.Status() == 500 <==> !tableExists
    ensures r == UserNotFound <==> tableExists && uniqueId !in users
    ensures r == AlreadyRegistered <==> tableExists && uniqueId in users && users[uniqueId].isRegistered
    ensures r.Status() == 200 <==> tableExists && uniqueId in users && !users[uniqueId].isRegistered
    ensures r.Status() == 200 ==> r == UserFound(users[uniqueId].email)
  {
    if !tableExists then TableMissing
    else if uniqueId !in users then UserNotFound
    else if users[uniqueId].isRegistered then AlreadyRegistered
    else UserFound(users[uniqueId].email)
  }

  /* ----------------------------- send OTP ----------------------------- */

  /** sendOtp gets past its three guards: a non-empty identifier, a known
      record, a record with an email. */
  predicate CanIssue(users: Users, uniqueId: string) {
    uniqueId != "" && uniqueId in users && HasEmail(users[uniqueId])
  }

  /** sendOtp as a transition. The guards fail in a fixed order and leave the
      store alone without invoking the email helper; past them the code is
      stored first, replacing any previous one, and only then sent, so a
      failed delivery still leaves the new code stored. */
  function SendOtpStep(users: Users, cfg: MailConfig, uniqueId: string, code: OtpCode, now: int, providerOk: bool): (s: Step)
    ensures s.reply == UniqueIdRequired <==> uniqueId == ""
    ensures s.reply == UserNotFound <==> uniqueId != "" && uniqueId !in users
    ensures s.reply == EmailNotConfigured <==> uniqueId != "" && uniqueId in users && !HasEmail(users[uniqueId])
    ensures !CanIssue(users, uniqueId) ==> s.users == users && s.mail == None
    ensures CanIssue(users, uniqueId) ==>
      && s.users == users[uniqueId := Issue(users[uniqueId], code, now)]
      && s.mail == Some(SendEmail(cfg, users[uniqueId].email.value, OtpSubject, OtpHtml(code), providerOk))
    ensures s.users.Keys == users.Keys
    ensures forall k :: k in users && k != uniqueId ==> s.users[k] == users[k]
    ensures s.reply.Status() == 200 <==> CanIssue(users, uniqueId) && s.mail.value.Sent()
    ensures s.reply.Status() == 200 ==> s.reply == OtpSent(users[uniqueId].email.value)
    ensures s.reply == OtpSendFailed <==> CanIssue(users, uniqueId) && !s.mail.value.Sent()
  {
    if uniqueId == "" then Step(UniqueIdRequired, users, None)
    else if uniqueId !in users then Step(UserNotFound, users, None)
    else if !HasEmail(users[uniqueId]) then Step(EmailNotConfigured, users, None)
    else
      var email := users[uniqueId].email.value;
      var saved := users[uniqueId := Issue(users[uniqueId], code, now)];
      var delivery := SendEmail(cfg, email, OtpSubject, OtpHtml(code), providerOk);
      Step(if delivery.Sent() then OtpSent(email) else OtpSendFailed, saved, Some(delivery))
  }

  /* ---------------------------- verify OTP ---------------------------- */

  /** `user.otp !== otp` under JavaScript's strict inequality: a stored null
      equals only a submitted null; a stored string equals only the same
      submitted string. */
  predicate CodeMismatch(stored: Option<string>, submitted: Submitted) {
    match stored
    case None => !submitted.JsonNull?
    case Some(c) => submitted != Text(c)
  }

  /** The number `new Date() > user.otpExpiry` compares against: a null
      expiry converts to 0. */
  function ExpiryMillis(expiry: Option<int>): int {
    match expiry
    case None => 0
    case Some(t) => t
  }

  /** verifyOtp: read-only. An unknown identifier is reported first, then a
      code that differs from the stored one (even when the stored one has
      expired), then expiry; a verified code is not consumed. */
  function VerifyOtp(users: Users, uniqueId: string, otp: Submitted, now: int): (r: Reply)
    ensures r == UserNotFound <==> uniqueId !in users
    ensures r == InvalidOtp <==> uniqueId in users && CodeMismatch(users[uniqueId].otp, otp)
    ensures r == OtpExpired <==>
      uniqueId in users && !CodeMismatch(users[uniqueId].otp, otp) && now > ExpiryMillis(users[uniqueId].otpExpiry)
    ensures r == OtpVerified <==>
      uniqueId in users && !CodeMismatch(users[uniqueId].otp, otp) && now <= ExpiryMillis(users[uniqueId].otpExpiry)
    ensures otp.Text? && uniqueId in users ==>
      (r == OtpVerified <==> users[uniqueId].otp == Some(otp.s) && now <= ExpiryMillis(users[uniqueId].otpExpiry))
  {
    if uniqueId !in users then UserNotFound
    else if CodeMismatch(users[uniqueId].otp, otp) then InvalidOtp
    else if now > ExpiryMillis(users[uniqueId].otpExpiry) then OtpExpired
    else OtpVerified
  }

  /* --------------------------- set password --------------------------- */

  /** setPassword as a transition. `hash` stands for salting and hashing,
      with `salt` the freshly generated salt. Only the record's existence is
      checked; the OTP slot is neither consulted nor required. */
  function SetPasswordStep(users: Users, uniqueId: string, password: string, salt: string,
                           hash: (string, string) -> string): (s: Step)
    ensures s.mail == None
    ensures uniqueId !in users ==> s.reply == UserNotFound && s.users == users
    ensures uniqueId in users ==>
      && s.reply == PasswordCreated
      && s.users == users[uniqueId := Register(users[uniqueId], hash(password, salt))]
    ensures s.users.Keys == users.Keys
    ensures forall k :: k in users && k != uniqueId ==> s.users[k] == users[k]
  {
    if uniqueId !in users then Step(UserNotFound, users, None)
    else Step(PasswordCreated, users[uniqueId := Register(users[uniqueId], hash(password, salt))], None)
  }

  /* ------------------------ test email config ------------------------ */

  /** The self-check's reply and, when it got that far, the helper's outcome
      for the test message. */
  datatype ConfigCheck = ConfigCheck(reply: Reply, mail: Option<Delivery>)

  /** testEmailConfig: the API key, then MAIL_FROM being set, then MAIL_FROM
      being an address; only then is a test message sent to MAIL_FROM itself.
      It reports ready exactly when the configuration is complete and the
      provider accepts. */
  function TestEmailConfig(cfg: MailConfig, providerOk: bool): (c: ConfigCheck)
    ensures c.reply == ConfigIncomplete(ApiKeySetting) <==> cfg.apiKey == ""
    ensures c.reply == ConfigIncomplete(MailFromSetting) <==> cfg.apiKey != "" && cfg.mailFrom == ""
    ensures c.reply == ConfigInvalid <==> cfg.apiKey != "" && cfg.mailFrom != "" && !IsAddress(cfg.mailFrom)
    ensures c.mail.Some? <==> cfg.apiKey != "" && IsAddress(cfg.mailFrom)
    ensures c.mail.Some? ==> c.mail.value == SendEmail(cfg, cfg.mailFrom, TestSubject, TestHtml, providerOk)
    ensures c.reply == ConfigReady <==> cfg.apiKey != "" && IsAddress(cfg.mailFrom) && providerOk
    ensures c.reply == EmailTestFailed <==> cfg.apiKey != "" && IsAddress(cfg.mailFrom) && !providerOk
  {
    if cfg.apiKey == "" then ConfigCheck(ConfigIncomplete(ApiKeySetting), None)
    else if cfg.mailFrom == "" then ConfigCheck(ConfigIncomplete(MailFromSetting), None)
    else if !IsAddress(cfg.mailFrom) then ConfigCheck(ConfigInvalid, None)
    else
      var test := SendEmail(cfg, cfg.mailFrom, TestSubject, TestHtml, providerOk);
      ConfigCheck(if test.Sent() then ConfigReady else EmailTestFailed, Some(test))
  }

  /* ------------------------------ login ------------------------------ */

  /** loginUser. `compare` stands for the digest comparison; it rejects a null
      digest by throwing, which the handler turns into a server error, and so
      does a token signer given no secret. On success the payload is exactly
      the record's `id` and `uniqueId`, valid for two hours. */
  function LoginUser(users: Users, uniqueId: string, password: string,
                     compare: (string, string) -> bool, jwtSecret: string): (r: Reply)
    ensures r == UserNotFound <==> uniqueId !in users
    ensures r == InvalidPassword <==>
      uniqueId in users && users[uniqueId].passwordHash.Some? && !compare(password, users[uniqueId].passwordHash.value)
    ensures r.LoginSuccessful? <==>
      && uniqueId in users && users[uniqueId].passwordHash.Some?
      && compare(password, users[uniqueId].passwordHash.value) && jwtSecret != ""
    ensures uniqueId in users && users[uniqueId].passwordHash == None ==> r == ServerError
    ensures r.LoginSuccessful? ==>
      && r.token == Token(Claims(users[uniqueId].id, users[uniqueId].uniqueId), jwtSecret, TokenLifetimeSeconds)
      && r.user == Profile(users[uniqueId].uniqueId, users[uniqueId].fullName)
    ensures r == ServerError <==>
      && uniqueId in users
      && (users[uniqueId].passwordHash.None?
          || (compare(password, users[uniqueId].passwordHash.value) && jwtSecret == ""))
  {
    if uniqueId !in users then UserNotFound
    else
      var user := users[uniqueId];
      if user.passwordHash.None? then ServerError
      else if !compare(password, user.passwordHash.value) then InvalidPassword
      else if jwtSecret == "" then ServerError
      else
        var token := Token(Claims(user.id, user.uniqueId), jwtSecret, TokenLifetimeSeconds);
        LoginSuccessful(token, Profile(user.uniqueId, user.fullName))
  }

  /* ---------------------- the store, updated in place ---------------------- */

  /** The users table. The two handlers that write fetch a record, assign its
      fields and save it back. */
  class UserStore {
    var users: Users

    constructor (provisioned: Users)
      ensures users == provisioned
    {
      users := provisioned;
    }

    method SendOtp(cfg: MailConfig, uniqueId: string, code: OtpCode, now: int, providerOk: bool)
      returns (reply: Reply, mail: Option<Delivery>)
      modifies this
      ensures Step(reply, users, mail) == SendOtpStep(old(users), cfg, uniqueId, code, now, providerOk)
    {
      if uniqueId == "" {
        return UniqueIdRequired, None;
      }
      if uniqueId !in users {
        return UserNotFound, None;
      }
      var user := users[uniqueId];
      if !HasEmail(user) {
        return EmailNotConfigured, None;
      }
      user := user.(otp := Some(code));
      user := user.(otpExpiry := Some(now + OtpLifetimeMs));
      users := users[uniqueId := user];
      var delivery := SendEmail(cfg, user.email.value, OtpSubject, OtpHtml(code), providerOk);
      mail := Some(delivery);
      if !delivery.Sent() {
        return OtpSendFailed, mail;
      }
      reply := OtpSent(user.email.value);
    }

    method SetPassword(uniqueId: string, password: string, salt: string, hash: (string, string) -> string)
      returns (reply: Reply)
      modifies this
      ensures Step(reply, users, None) == SetPasswordStep(old(users), uniqueId, password, salt, hash)
    {
      if uniqueId !in users {
        return UserNotFound;
      }
      var user := users[uniqueId];
      user := user.(passwordHash := Some(hash(password, salt)));
      user := user.(isRegistered := true);
      user := user.(otp := None, otpExpiry := None);
      users := users[uniqueId := user];
      reply := PasswordCreated;
    }
  }
}
