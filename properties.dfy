/** Properties relating the handlers to one another: what one handler's
    effect means for the next handler's answer, and the registration and
    login scenarios of the registration flow, worked through on concrete records. */
module Properties {
  import opened Records
  import opened Mail
  import opened Handlers

  /** Right after a code is issued (whether or not it was delivered), the
      submitted string verifies exactly when it is that code and at most five
      minutes have passed; a different string is Invalid at any time. */
  lemma VerifyAfterIssue(users: Users, cfg: MailConfig, uniqueId: string, code: OtpCode, now: int,
                         providerOk: bool, submitted: string, t: int)
    requires CanIssue(users, uniqueId)
    ensures var after := SendOtpStep(users, cfg, uniqueId, code, now, providerOk).users;
      && (VerifyOtp(after, uniqueId, Text(submitted), t) == OtpVerified <==> submitted == code && t <= now + OtpLifetimeMs)
      && (submitted != code ==> VerifyOtp(after, uniqueId, Text(submitted), t) == InvalidOtp)
      && (submitted == code && t > now + OtpLifetimeMs ==> VerifyOtp(after, uniqueId, Text(submitted), t) == OtpExpired)
  {
  }

  /** Reissuing replaces the code: after two issues with different codes the
      first one is Invalid, at any time. */
  lemma ReissueInvalidatesPrevious(users: Users, cfg: MailConfig, uniqueId: string,
                                   first: OtpCode, t1: int, ok1: bool,
                                   second: OtpCode, t2: int, ok2: bool, t: int)
    requires CanIssue(users, uniqueId)
    requires first != second
    ensures var s1 := SendOtpStep(users, cfg, uniqueId, first, t1, ok1);
      var s2 := SendOtpStep(s1.users, cfg, uniqueId, second, t2, ok2);
      VerifyOtp(s2.users, uniqueId, Text(first), t) == InvalidOtp
  {
  }

  /** A failed delivery reports 500 but keeps the new code stored; retrying
      stores a fresh code in its place. */
  lemma FailedDeliveryKeepsCode(users: Users, cfg: MailConfig, uniqueId: string, code: OtpCode, now: int,
                                retry: OtpCode, later: int, ok: bool)
    requires CanIssue(users, uniqueId)
    ensures var s := SendOtpStep(users, cfg, uniqueId, code, now, false);
      && s.reply == OtpSendFailed
      && s.users[uniqueId].otp == Some(code)
      && s.users[uniqueId].otpExpiry == Some(now + OtpLifetimeMs)
      && SendOtpStep(s.users, cfg, uniqueId, retry, later, ok).users[uniqueId].otp == Some(retry)
  {
  }

  /** A recipient without '@' passes sendOtp's own guard, so the code is
      stored, and then the email helper refuses it. */
  lemma AddresslessEmailStoresCode(users: Users, cfg: MailConfig, uniqueId: string, code: OtpCode, now: int,
                                   providerOk: bool)
    requires CanIssue(users, uniqueId) && !IsAddress(users[uniqueId].email.value)
    requires cfg.apiKey != "" && IsAddress(cfg.mailFrom)
    ensures var s := SendOtpStep(users, cfg, uniqueId, code, now, providerOk);
      && s.reply == OtpSendFailed
      && s.mail == Some(Refused(BadRecipient))
      && s.users[uniqueId].otp == Some(code)
  {
  }

  /** sendOtp does not consult `isRegistered`: a registered user can obtain a
      code that then verifies. */
  lemma RegisteredUserCanGetCode(users: Users, cfg: MailConfig, uniqueId: string, code: OtpCode, now: int,
                                 providerOk: bool)
    requires CanIssue(users, uniqueId) && users[uniqueId].isRegistered
    ensures var after := SendOtpStep(users, cfg, uniqueId, code, now, providerOk).users;
      VerifyOtp(after, uniqueId, Text(code), now) == OtpVerified
  {
  }

  /** After setPassword the slot is clear: no string verifies, a missing
      field is Invalid, and a JSON null passes the comparison with the
      cleared code and then meets the null expiry, which counts as time 0. */
  lemma ClearedSlotVerifiesNoCode(users: Users, uniqueId: string, password: string, salt: string,
                                  hash: (string, string) -> string, submitted: string, t: int)
    requires uniqueId in users
    ensures var after := SetPasswordStep(users, uniqueId, password, salt, hash).users;
      && VerifyOtp(after, uniqueId, Text(submitted), t) == InvalidOtp
      && VerifyOtp(after, uniqueId, Missing, t) == InvalidOtp
      && VerifyOtp(after, uniqueId, JsonNull, t) == (if t > 0 then OtpExpired else OtpVerified)
  {
  }

  /** setPassword makes no OTP check: its effect is the same whatever the
      slot held, verified or not. */
  lemma SetPasswordIgnoresSlot(users: Users, uniqueId: string, password: string, salt: string,
                               hash: (string, string) -> string, otp: Option<string>, otpExpiry: Option<int>)
    requires uniqueId in users
    ensures var tampered := users[uniqueId := users[uniqueId].(otp := otp, otpExpiry := otpExpiry)];
      SetPasswordStep(tampered, uniqueId, password, salt, hash) == SetPasswordStep(users, uniqueId, password, salt, hash)
  {
  }

  /** After setPassword the check-user gate answers already registered. */
  lemma SetPasswordClosesGate(users: Users, uniqueId: string, password: string, salt: string,
                              hash: (string, string) -> string)
    requires uniqueId in users
    ensures CheckUser(SetPasswordStep(users, uniqueId, password, salt, hash).users, true, uniqueId) == AlreadyRegistered
  {
  }

  /** setPassword also accepts an already registered user and rebinds the
      digest. */
  lemma SetPasswordRebindsDigest(users: Users, uniqueId: string, password: string, salt: string,
                                 hash: (string, string) -> string)
    requires uniqueId in users && users[uniqueId].isRegistered
    ensures var s := SetPasswordStep(users, uniqueId, password, salt, hash);
      s.reply == PasswordCreated && s.users[uniqueId].passwordHash == Some(hash(password, salt))
  {
  }

  /** Login after setPassword: with a comparison that accepts the password
      against its own digest, login succeeds with payload {id, uniqueId} for
      two hours; with one that rejects, it answers 401. */
  lemma LoginAfterSetPassword(users: Users, uniqueId: string, password: string, salt: string,
                              hash: (string, string) -> string, compare: (string, string) -> bool,
                              attempt: string, jwtSecret: string)
    requires uniqueId in users && users[uniqueId].uniqueId == uniqueId && jwtSecret != ""
    ensures var after := SetPasswordStep(users, uniqueId, password, salt, hash).users;
      var r := LoginUser(after, uniqueId, attempt, compare, jwtSecret);
      && (compare(attempt, hash(password, salt)) ==>
            r == LoginSuccessful(Token(Claims(users[uniqueId].id, uniqueId), jwtSecret, TokenLifetimeSeconds),
                                 Profile(uniqueId, users[uniqueId].fullName)))
      && (!compare(attempt, hash(password, salt)) ==> r == InvalidPassword && r.Status() == 401)
  {
  }

  /** Before registration there is no digest, the comparison throws, and
      login answers 500 rather than 401. */
  lemma LoginBeforeRegistration(users: Users, uniqueId: string, attempt: string,
                                compare: (string, string) -> bool, jwtSecret: string)
    requires uniqueId in users && DigestConsistent(users[uniqueId]) && !users[uniqueId].isRegistered
    ensures LoginUser(users, uniqueId, attempt, compare, jwtSecret).Status() == 500
  {
  }

  /* ------------------------------ scenarios ------------------------------ */

  function ProvisionedU1(): UserRecord {
    UserRecord(1, "U1", Some("a@x.com"), Some("User One"), false, None, None, None)
  }

  function WorkingMail(): MailConfig {
    MailConfig("api-key", "noreply@x.com", "")
  }

  /** Registration end to end: check, send, verify and set for U1. */
  lemma ScenarioRegistration(hash: (string, string) -> string, now: int)
    ensures var users := map["U1" := ProvisionedU1()];
      var sent := SendOtpStep(users, WorkingMail(), "U1", "123456", now, true);
      var done := SetPasswordStep(sent.users, "U1", "pw123", "salt", hash);
      && CheckUser(users, true, "U1") == UserFound(Some("a@x.com"))
      && sent.reply == OtpSent("a@x.com")
      && sent.users["U1"].otpExpiry == Some(now + 300000)
      && sent.mail.Some? && sent.mail.value.Delivered?
      && sent.mail.value.envelope.subject == "OTP Verification"
      && sent.mail.value.envelope.senderName == "DCS Coaching"
      && VerifyOtp(sent.users, "U1", Text("123456"), now) == OtpVerified
      && VerifyOtp(sent.users, "U1", Text("000000"), now) == InvalidOtp
      && VerifyOtp(sent.users, "U1", Text("123456"), now + 301000) == OtpExpired
      && done.reply == PasswordCreated
      && done.users["U1"].isRegistered
      && done.users["U1"].otp == None && done.users["U1"].otpExpiry == None
  {
  }

  /** An unknown identity gets 404 and no email is attempted. */
  lemma ScenarioUnknownIdentity(code: OtpCode, now: int, providerOk: bool)
    ensures var s := SendOtpStep(map["U1" := ProvisionedU1()], WorkingMail(), "U404", code, now, providerOk);
      s.reply.Status() == 404 && s.mail == None
  {
  }
}
