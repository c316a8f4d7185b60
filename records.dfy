/**
 * The records of the three store tables (USERS, CERTIFICATES, DEVICES), the
 * in-memory invite entries, and the engine's time constants. Timestamps are
 * integers counting milliseconds.
 */
module Records {
  import opened Options

  /** One day in milliseconds. */
  const DayMs: int := 24 * 60 * 60 * 1000

  /** A session lasts three days after login (TOKEN_LIFESPAN). */
  const TokenLifespanDays: int := 3
  const TokenLifespanMs: int := TokenLifespanDays * DayMs

  /** An invite code is dropped five minutes after it was issued (INVITE_TIMEOUT). */
  const InviteTimeoutMs: int := 1000 * 60 * 5

  /** A guest certificate is protected from the sweep for ten minutes (GUEST_GRACE_PERIOD). */
  const GuestGracePeriodMs: int := 1000 * 60 * 10

  /** The guest sweep runs every three minutes (GUEST_CHECK_INT). */
  const GuestCheckIntervalMs: int := 1000 * 60 * 3

  /** A row of USERS. `expirationDate` and `token` are unset until the first login. */
  datatype User = User(
    username: string,
    passwordHash: string,
    isAdmin: bool,
    expirationDate: Option<int>,
    token: Option<string>,
    smbPassword: string)

  /** A row of CERTIFICATES; no `username` marks a guest certificate. */
  datatype Certificate = Certificate(id: string, username: Option<string>)

  /** A row of DEVICES: a friendly name for a hardware address. */
  datatype Device = Device(mac: string, name: Option<string>)

  /**
   * An entry of `inviteCodes` or `guestInviteCodes`. Member invites never
   * carry a `certificateId`; a guest invite carries the id of the certificate
   * issued for it (unset when issuance failed).
   */
  datatype InviteEntry = InviteEntry(
    id: string,
    isAdmin: bool,
    username: Option<string>,
    certificateId: Option<string>)

  /** The store's maps are keyed by each record's own key column. */
  ghost predicate UsersKeyed(users: map<string, User>) {
    forall name :: name in users ==> users[name].username == name
  }

  ghost predicate CertificatesKeyed(certificates: map<string, Certificate>) {
    forall id :: id in certificates ==> certificates[id].id == id
  }

  ghost predicate DevicesKeyed(devices: map<string, Device>) {
    forall mac :: mac in devices ==> devices[mac].mac == mac
  }
}
