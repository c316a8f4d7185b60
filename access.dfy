/**
 * The request-level decisions: the endpoint gate, who may delete a user or
 * a certificate, who may download a certificate, and the scrubbing of
 * records before they are sent (`cleanOutput`).
 */
module Access {
  import opened Options
  import opened Records

  /** The outcome of the gate in front of every endpoint. */
  datatype GateOutcome =
    | Unauthorized                  // 401
    | Forbidden                     // 403
    | Admitted(user: Option<User>)  // the handler runs, with `req.user` set when checked

  /**
   * The gate: `user` is what `checkToken` resolved the presented token to.
   * Routes that need no authentication never look at the token, nor at the
   * admin flag.
   */
  function Gate(requiresAuth: bool, requiresAdmin: bool, user: Option<User>): (g: GateOutcome)
    ensures g == Unauthorized <==> requiresAuth && user.None?
    ensures g == Forbidden <==> requiresAuth && user.Some? && requiresAdmin && !user.value.isAdmin
    ensures g.Admitted? && requiresAuth ==> g.user == user && user.Some?
    ensures g.Admitted? && requiresAuth && requiresAdmin ==> g.user.value.isAdmin
    ensures !requiresAuth ==> g == Admitted(None)
  {
    if !requiresAuth then Admitted(None)
    else if user.None? then Unauthorized
    else if requiresAdmin && !user.value.isAdmin then Forbidden
    else Admitted(user)
  }

  /**
   * `user && req.user.username === username || req.user.isAdmin`: the
   * `&&` binds tighter, so an admin may delete any name, stored or not,
   * and anyone else only their own stored account.
   */
  predicate MayDeleteUser(caller: User, target: Option<User>, username: string) {
    (target.Some? && caller.username == username) || caller.isAdmin
  }

  lemma DeleteUserRule(caller: User, target: Option<User>, username: string)
    ensures caller.isAdmin ==> MayDeleteUser(caller, target, username)
    ensures !caller.isAdmin ==> (MayDeleteUser(caller, target, username) <==> target.Some? && caller.username == username)
  {
  }

  /** How `DELETE certificates/:id` ends. */
  datatype CertificateDeletion =
    | Revoked(id: string)  // the certificate is revoked, then the call answers
    | NotRevoked           // the record has an empty id: nothing revoked, the call answers
    | Stalled              // the callback throws: nothing revoked, the process ends

  /**
   * The handler of `DELETE certificates/:id` for the record found by id.
   * The handler takes only `req`, so the `res.status(403)` of the refusal
   * branch throws (no `res` is in scope) and the rest of the callback never
   * runs. A missing record throws too: for a non-admin caller when the
   * refusal test reads its `username`, for an admin (whose `isAdmin` cuts
   * that test short) when the next test reads its `id`.
   */
  function DeleteCertificateDecision(caller: User, certificate: Option<Certificate>): (d: CertificateDeletion)
    ensures d.Revoked? <==> certificate.Some? && certificate.value.id != "" &&
                            (caller.isAdmin || certificate.value.username == Some(caller.username))
    ensures d.Revoked? ==> d.id == certificate.value.id
    ensures certificate.None? ==> d == Stalled
    ensures certificate.Some? && !caller.isAdmin && certificate.value.username != Some(caller.username) ==> d == Stalled
  {
    match certificate
    case None => Stalled
    case Some(c) =>
      if !caller.isAdmin && c.username != Some(caller.username) then Stalled
      else if c.id != "" then Revoked(c.id)
      else NotRevoked
  }

  /** `getCertificateById` serves the certificate only to its owner; otherwise the call never answers. */
  function DownloadDecision(username: string, certificate: Option<Certificate>): (served: Option<string>)
    ensures served.Some? <==> certificate.Some? && certificate.value.username == Some(username)
    ensures served.Some? ==> served.value == certificate.value.id
  {
    if certificate.Some? && certificate.value.username == Some(username) then Some(certificate.value.id) else None
  }

  /** Guest certificates belong to nobody, so no user can fetch one through the owner route. */
  lemma GuestCertificateNotServedByOwnerRoute(username: string, c: Certificate)
    requires c.username.None?
    ensures DownloadDecision(username, Some(c)).None?
  {
  }

  /** JavaScript truthiness of an optional string: present and not empty. */
  predicate Truthy(s: Option<string>) {
    s.Some? && s.value != ""
  }

  // ---------------------------------------------------------------------------
  // cleanOutput

  /** A property value of a record sent to a client. */
  datatype Field = Str(s: string) | Bool(b: bool) | Num(n: int) | Null

  /** A plain object: its own properties. */
  class Record {
    var fields: map<string, Field>

    constructor (fields: map<string, Field>)
      ensures this.fields == fields
    {
      this.fields := fields;
    }
  }

  /** REMOVE_PROPERTIES */
  const RemoveProperties: set<string> := {"_id", "passwordHash", "expirationDate", "token"}

  /**
   * `cleanOutput`: deletes the four properties from every item, in place.
   * The same object may occur more than once; deleting twice is harmless.
   */
  method CleanOutput(items: seq<Record>)
    modifies set r | r in items
    ensures forall r :: r in items ==> r.fields == old(r.fields) - RemoveProperties
  {
    for i := 0 to |items|
      invariant forall r :: r in items[..i] ==> r.fields == old(r.fields) - RemoveProperties
      invariant forall r :: r in items[i..] && r !in items[..i] ==> r.fields == old(r.fields)
    {
      var item := items[i];
      item.fields := item.fields - RemoveProperties;
      assert items[..i + 1] == items[..i] + [item];
    }
  }

  /** A user row as the store returns it. */
  function UserFields(u: User): map<string, Field> {
    map[
      "username" := Str(u.username),
      "passwordHash" := Str(u.passwordHash),
      "isAdmin" := Bool(u.isAdmin),
      "expirationDate" := (if u.expirationDate.Some? then Num(u.expirationDate.value) else Null),
      "token" := (if u.token.Some? then Str(u.token.value) else Null),
      "smbPassword" := Str(u.smbPassword)]
  }

  /**
   * A cleaned user keeps its name, admin flag and share password, and loses
   * the hash, the token and the expiry.
   */
  lemma CleanedUserFields(u: User)
    ensures (UserFields(u) - RemoveProperties).Keys == {"username", "isAdmin", "smbPassword"}
    ensures (UserFields(u) - RemoveProperties)["username"] == Str(u.username)
    ensures (UserFields(u) - RemoveProperties)["isAdmin"] == Bool(u.isAdmin)
    ensures (UserFields(u) - RemoveProperties)["smbPassword"] == Str(u.smbPassword)
  {
    var m := UserFields(u) - RemoveProperties;
    assert "username" in m && "isAdmin" in m && "smbPassword" in m;
  }
}
