/** The per-user record that the registration flow reads and writes, kept in a
    store addressed by `uniqueId`, and the two in-place updates the flow makes
    to a record: issuing a one-time code and binding a password digest. */
module Records {

  datatype Option<+T> = None | Some(value: T)

  /** Lifetime of an issued code: five minutes, in milliseconds. */
  const OtpLifetimeMs: int := 5 * 60 * 1000

  /** The code generator is asked for six characters with upper-case letters
      and special characters switched off; digits and lower-case letters stay
      allowed. */
  predicate IsOtpChar(c: char) {
    '0' <= c <= '9' || 'a' <= c <= 'z'
  }

  predicate ValidCode(s: string) {
    |s| == 6 && forall i :: 0 <= i < |s| ==> IsOtpChar(s[i])
  }

  /** What the code generator can return. */
  type OtpCode = s: string | ValidCode(s) witness "000000"

  /** One provisioned identity. `otpExpiry` is a timestamp in milliseconds;
      `None` stands for a SQL null. */
  datatype UserRecord = UserRecord(
    id: int,
    uniqueId: string,
    email: Option<string>,
    fullName: Option<string>,
    isRegistered: bool,
    passwordHash: Option<string>,
    otp: Option<string>,
    otpExpiry: Option<int>)

  type Users = map<string, UserRecord>

  /** The record has an email in the sense of `!user.email` being false:
      neither null nor the empty string. */
  predicate HasEmail(r: UserRecord) {
    r.email.Some? && r.email.value != ""
  }

  /** The fields set at provisioning, which this flow never writes. */
  predicate SameProvisioning(a: UserRecord, b: UserRecord) {
    a.id == b.id && a.uniqueId == b.uniqueId && a.email == b.email && a.fullName == b.fullName
  }

  /** A code is stored exactly when an expiry is stored. */
  predicate SlotConsistent(r: UserRecord) {
    r.otp.Some? <==> r.otpExpiry.Some?
  }

  /** A record is registered exactly when it holds a password digest. */
  predicate DigestConsistent(r: UserRecord) {
    r.isRegistered <==> r.passwordHash.Some?
  }

  /** The record invariants of the data model, for a whole store: every record
      sits under its own `uniqueId` and is slot- and digest-consistent. */
  predicate Consistent(users: Users) {
    forall k :: k in users ==>
      users[k].uniqueId == k && SlotConsistent(users[k]) && DigestConsistent(users[k])
  }

  /** `user.otp = otp; user.otpExpiry = now + 5 minutes`: the single slot now
      holds the new code, whatever it held before. */
  function Issue(r: UserRecord, code: OtpCode, now: int): (r': UserRecord)
    ensures r'.otp == Some(code) && r'.otpExpiry == Some(now + OtpLifetimeMs)
    ensures SameProvisioning(r, r')
    ensures r'.isRegistered == r.isRegistered && r'.passwordHash == r.passwordHash
    ensures SlotConsistent(r') && (DigestConsistent(r) ==> DigestConsistent(r'))
  {
    r.(otp := Some(code), otpExpiry := Some(now + OtpLifetimeMs))
  }

  /** Binding a digest: the record becomes registered and the code slot is
      retired. */
  function Register(r: UserRecord, digest: string): (r': UserRecord)
    ensures r'.isRegistered && r'.passwordHash == Some(digest)
    ensures r'.otp == None && r'.otpExpiry == None
    ensures SameProvisioning(r, r')
    ensures SlotConsistent(r') && DigestConsistent(r')
  {
    r.(passwordHash := Some(digest), isRegistered := true, otp := None, otpExpiry := None)
  }
}
