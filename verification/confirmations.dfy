/**
 Pending e-mail confirmations and registrations (`ConfirmationBase` and its two
 concrete models). Date-times are whole seconds on one clock.
 */
module Confirmations {
  import opened Users

  /** `_expiration_hours`. */
  const ExpirationHours: nat := 24

  const SecondsPerHour: nat := 3600

  /** A pending confirmation; `dateSent` is refreshed on every save. */
  datatype Confirmation =
    | EmailConfirmation(user: User, token: string, dateSent: int, email: string)
    | RegistrationConfirmation(user: User, token: string, dateSent: int, password: string, iterations: int)

  /** `expiration_date`: `date_sent` plus the expiration period. */
  function ExpirationDate(c: Confirmation): (t: int)
    ensures t - c.dateSent == 24 * 60 * 60
  {
    c.dateSent + ExpirationHours * SecondsPerHour
  }

  /** Expiry depends only on when the confirmation was sent, never on its
      kind or contents, and a later sending expires later. */
  lemma ExpiryFollowsSending(c: Confirmation, d: Confirmation)
    ensures c.dateSent == d.dateSent ==> ExpirationDate(c) == ExpirationDate(d)
    ensures c.dateSent < d.dateSent ==> ExpirationDate(c) < ExpirationDate(d)
    ensures ExpirationDate(c) > c.dateSent
  {
  }
}
