/** The email helper: configuration guards in front of a transactional-email
    provider. The provider call itself is foreign; its answer (the request
    resolved, or it threw) is the parameter `providerOk`. */
module Mail {

  /** Sender display name used when MAIL_FROM_NAME is unset. */
  const DefaultSenderName: string := "DCS Coaching"

  /** The environment settings the helper reads; an unset variable is the
      empty string, since both are falsy to the guards. */
  datatype MailConfig = MailConfig(apiKey: string, mailFrom: string, mailFromName: string)

  /** What would be handed to the provider. */
  datatype Envelope = Envelope(senderName: string, sender: string, to: string, subject: string, html: string)

  /** Why the helper refused to call the provider, in the order it checks. */
  datatype Fault = ApiKeyMissing | SenderMissing | SenderNotAddress | BadRecipient

  /** The helper's outcome. It resolves to a boolean, `Sent()`, and never
      throws: a provider error is caught and reported as not sent. */
  datatype Delivery = Refused(fault: Fault) | ProviderError(envelope: Envelope) | Delivered(envelope: Envelope)
  {
    predicate Sent() {
      Delivered?
    }
  }

  /** `s.includes('@')`. */
  predicate IsAddress(s: string) {
    '@' in s
  }

  function SenderName(cfg: MailConfig): (name: string)
    ensures name != ""
    ensures cfg.mailFromName != "" ==> name == cfg.mailFromName
    ensures cfg.mailFromName == "" ==> name == DefaultSenderName
  {
    if cfg.mailFromName == "" then DefaultSenderName else cfg.mailFromName
  }

  /** sendEmail: the provider is called only when the API key is set, the
      sender is an address and the recipient is an address; the result is
      true only when that call also succeeds. */
  function SendEmail(cfg: MailConfig, to: string, subject: string, html: string, providerOk: bool): (d: Delivery)
    ensures d.Sent() <==> cfg.apiKey != "" && IsAddress(cfg.mailFrom) && IsAddress(to) && providerOk
    ensures d == Refused(ApiKeyMissing) <==> cfg.apiKey == ""
    ensures d == Refused(SenderMissing) <==> cfg.apiKey != "" && cfg.mailFrom == ""
    ensures d == Refused(SenderNotAddress) <==> cfg.apiKey != "" && cfg.mailFrom != "" && !IsAddress(cfg.mailFrom)
    ensures d == Refused(BadRecipient) <==> cfg.apiKey != "" && IsAddress(cfg.mailFrom) && !IsAddress(to)
    ensures !d.Refused? ==> d.envelope == Envelope(SenderName(cfg), cfg.mailFrom, to, subject, html)
  {
    if cfg.apiKey == "" then Refused(ApiKeyMissing)
    else if cfg.mailFrom == "" then Refused(SenderMissing)
    else if !IsAddress(cfg.mailFrom) then Refused(SenderNotAddress)
    else if to == "" || !IsAddress(to) then Refused(BadRecipient)
    else
      var envelope := Envelope(SenderName(cfg), cfg.mailFrom, to, subject, html);
      if providerOk then Delivered(envelope) else ProviderError(envelope)
  }
}
