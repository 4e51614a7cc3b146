/** The store as a state machine: requests are handled one after another, and
    only sendOtp and setPassword change the store (the other handlers are
    functions of it). The lemmas here hold for every sequence of requests. */
module Protocol {
  import opened Records
  import opened Mail
  import opened Handlers

  /** A request to one of the two handlers that write the store, with the
      values its oracles produced: the generated code, the clock, the
      provider's answer, the generated salt. */
  datatype Request =
    | SendOtpRequest(uniqueId: string, code: OtpCode, now: int, providerOk: bool)
    | SetPasswordRequest(uniqueId: string, password: string, salt: string)

  function Apply(users: Users, cfg: MailConfig, hash: (string, string) -> string, q: Request): (u: Users)
    ensures u.Keys == users.Keys
    ensures forall k :: k in users ==> SameProvisioning(users[k], u[k])
    ensures forall k :: k in users && users[k].isRegistered ==> u[k].isRegistered
  {
    match q
    case SendOtpRequest(id, code, now, ok) => SendOtpStep(users, cfg, id, code, now, ok).users
    case SetPasswordRequest(id, password, salt) => SetPasswordStep(users, id, password, salt, hash).users
  }

  /** The store after handling `qs` in order. No record is ever created or
      deleted. */
  function Run(users: Users, cfg: MailConfig, hash: (string, string) -> string, qs: seq<Request>): (u: Users)
    ensures u.Keys == users.Keys
    decreases |qs|
  {
    if qs == [] then users else Run(Apply(users, cfg, hash, qs[0]), cfg, hash, qs[1..])
  }

  lemma {:induction false} RunSnoc(users: Users, cfg: MailConfig, hash: (string, string) -> string,
                                   qs: seq<Request>, q: Request)
    ensures Run(users, cfg, hash, qs + [q]) == Apply(Run(users, cfg, hash, qs), cfg, hash, q)
    decreases |qs|
  {
    if qs == [] {
      assert [] + [q] == [q];
    } else {
      assert (qs + [q])[1..] == qs[1..] + [q];
      RunSnoc(Apply(users, cfg, hash, qs[0]), cfg, hash, qs[1..], q);
    }
  }

  /** Registration never reverts. */
  lemma {:induction false} RunKeepsRegistration(users: Users, cfg: MailConfig, hash: (string, string) -> string,
                                                qs: seq<Request>, k: string)
    requires k in users && users[k].isRegistered
    ensures Run(users, cfg, hash, qs)[k].isRegistered
    decreases |qs|
  {
    if qs != [] {
      RunKeepsRegistration(Apply(users, cfg, hash, qs[0]), cfg, hash, qs[1..], k);
    }
  }

  /** Once registered, the check-user gate refuses the identity for good. */
  lemma RegisteredStaysRefused(users: Users, cfg: MailConfig, hash: (string, string) -> string,
                               qs: seq<Request>, k: string)
    requires k in users && users[k].isRegistered
    ensures CheckUser(Run(users, cfg, hash, qs), true, k) == AlreadyRegistered
  {
    RunKeepsRegistration(users, cfg, hash, qs, k);
  }

  /** The identifier, email, numeric id and name set at provisioning are
      never written by the flow. */
  lemma {:induction false} RunKeepsProvisioning(users: Users, cfg: MailConfig, hash: (string, string) -> string,
                                                qs: seq<Request>, k: string)
    requires k in users
    ensures SameProvisioning(users[k], Run(users, cfg, hash, qs)[k])
    decreases |qs|
  {
    if qs != [] {
      var next := Apply(users, cfg, hash, qs[0]);
      RunKeepsProvisioning(next, cfg, hash, qs[1..], k);
    }
  }

  lemma ApplyPreservesConsistency(users: Users, cfg: MailConfig, hash: (string, string) -> string, q: Request)
    requires Consistent(users)
    ensures Consistent(Apply(users, cfg, hash, q))
  {
    var u := Apply(users, cfg, hash, q);
    forall k | k in u
      ensures u[k].uniqueId == k && SlotConsistent(u[k]) && DigestConsistent(u[k])
    {
      assert SameProvisioning(users[k], u[k]);
    }
  }

  /** Every handled request keeps the data model's record invariants: a code
      is stored exactly when an expiry is, and a record is registered exactly
      when it holds a digest. */
  lemma {:induction false} RunPreservesConsistency(users: Users, cfg: MailConfig, hash: (string, string) -> string,
                                                   qs: seq<Request>)
    requires Consistent(users)
    ensures Consistent(Run(users, cfg, hash, qs))
    decreases |qs|
  {
    if qs != [] {
      ApplyPreservesConsistency(users, cfg, hash, qs[0]);
      RunPreservesConsistency(Apply(users, cfg, hash, qs[0]), cfg, hash, qs[1..]);
    }
  }

  /* ------------------- the OTP slot: the latest write wins ------------------- */

  datatype Slot = Slot(otp: Option<string>, expiry: Option<int>)

  function SlotOf(r: UserRecord): Slot {
    Slot(r.otp, r.otpExpiry)
  }

  /** What request `q` writes into the slot of identity `k`, whose provisioned
      record is `r`: a successful pass of sendOtp's guards stores a fresh
      code, setPassword clears the slot, anything else leaves it alone. */
  function SlotWrite(q: Request, k: string, r: UserRecord): Option<Slot> {
    match q
    case SendOtpRequest(id, code, now, _) =>
      if id == k && k != "" && HasEmail(r) then Some(Slot(Some(code), Some(now + OtpLifetimeMs))) else None
    case SetPasswordRequest(id, _, _) =>
      if id == k then Some(Slot(None, None)) else None
  }

  /** Reference definition of the slot, read backwards from the end of the
      request sequence: the last request that writes it decides it. */
  function LatestSlot(r: UserRecord, qs: seq<Request>, k: string): Slot
    decreases |qs|
  {
    if qs == [] then SlotOf(r)
    else match SlotWrite(qs[|qs| - 1], k, r)
      case Some(s) => s
      case None => LatestSlot(r, qs[..|qs| - 1], k)
  }

  /** One request's effect on one slot. */
  lemma ApplySlot(users: Users, cfg: MailConfig, hash: (string, string) -> string, q: Request, k: string)
    requires k in users
    ensures SlotOf(Apply(users, cfg, hash, q)[k]) ==
      match SlotWrite(q, k, users[k]) case Some(s) => s case None => SlotOf(users[k])
  {
  }

  /** What a request writes depends only on the provisioned fields. */
  lemma SlotWriteProvisioned(q: Request, k: string, a: UserRecord, b: UserRecord)
    requires SameProvisioning(a, b)
    ensures SlotWrite(q, k, a) == SlotWrite(q, k, b)
  {
  }

  /** Last write wins: after any sequence of requests the stored slot is the
      one the latest writing request left. */
  lemma {:induction false} LatestWriteWins(users: Users, cfg: MailConfig, hash: (string, string) -> string,
                                           qs: seq<Request>, k: string)
    requires k in users
    ensures SlotOf(Run(users, cfg, hash, qs)[k]) == LatestSlot(users[k], qs, k)
    decreases |qs|
  {
    if qs != [] {
      var init, q := qs[..|qs| - 1], qs[|qs| - 1];
      assert qs == init + [q];
      RunSnoc(users, cfg, hash, init, q);
      var before := Run(users, cfg, hash, init);
      LatestWriteWins(users, cfg, hash, init, k);
      RunKeepsProvisioning(users, cfg, hash, init, k);
      ApplySlot(before, cfg, hash, q, k);
      SlotWriteProvisioned(q, k, users[k], before[k]);
    }
  }

  /** A code verifies exactly when it is the code the latest writing request
      stored and its five minutes have not run out; any older code, or any
      code after setPassword cleared the slot, is Invalid. */
  lemma VerifyIffLatestIssued(users: Users, cfg: MailConfig, hash: (string, string) -> string,
                              qs: seq<Request>, k: string, c: string, t: int)
    requires k in users
    ensures var slot := LatestSlot(users[k], qs, k);
      VerifyOtp(Run(users, cfg, hash, qs), k, Text(c), t) == OtpVerified
      <==> slot.otp == Some(c) && t <= ExpiryMillis(slot.expiry)
  {
    LatestWriteWins(users, cfg, hash, qs, k);
  }

  lemma {:induction false} LatestSlotIssued(r: UserRecord, qs: seq<Request>, k: string, c: string)
    requires r.otp == None
    requires LatestSlot(r, qs, k).otp == Some(c)
    ensures exists i :: 0 <= i < |qs| && qs[i].SendOtpRequest? && qs[i].uniqueId == k && qs[i].code == c
                        && LatestSlot(r, qs, k).expiry == Some(qs[i].now + OtpLifetimeMs)
    decreases |qs|
  {
    var init, q := qs[..|qs| - 1], qs[|qs| - 1];
    match SlotWrite(q, k, r)
    case Some(s) =>
      assert qs[|qs| - 1] == q;
    case None =>
      LatestSlotIssued(r, init, k, c);
      var i :| 0 <= i < |init| && init[i].SendOtpRequest? && init[i].uniqueId == k && init[i].code == c
               && LatestSlot(r, init, k).expiry == Some(init[i].now + OtpLifetimeMs);
      assert qs[i] == init[i];
  }

  /** Starting from a record with no code, a code verifies only if a sendOtp
      request for that identity stored it, and then only within five minutes
      of that request. */
  lemma OnlyIssuedCodesVerify(users: Users, cfg: MailConfig, hash: (string, string) -> string,
                              qs: seq<Request>, k: string, c: string, t: int)
    requires k in users && users[k].otp == None
    ensures VerifyOtp(Run(users, cfg, hash, qs), k, Text(c), t) == OtpVerified ==>
      exists i :: 0 <= i < |qs| && qs[i].SendOtpRequest? && qs[i].uniqueId == k && qs[i].code == c
                  && t <= qs[i].now + OtpLifetimeMs
  {
    VerifyIffLatestIssued(users, cfg, hash, qs, k, c, t);
    if LatestSlot(users[k], qs, k).otp == Some(c) {
      LatestSlotIssued(users[k], qs, k, c);
    }
  }
}
