/**
 * The credential and session engine as one object: the three store tables
 * as maps keyed by their key column, the three in-memory invite lists, the
 * count of revocations handed to the revoke tool, and a clock.
 *
 * External effects are parameters: `fresh…` ids stand for `createId`,
 * `issued` for the outcome of the certificate tool, and `log` for the output
 * of the connection-listing tool (`None` when it fails). Each timer of the
 * source is an explicit step (`ExpireInvite`, `ExpireGuestInvite`,
 * `ReleaseGuestId`, `SweepGuests`).
 */
module Server {
  import opened Options
  import opened Records
  import opened Credentials
  import opened Sessions
  import opened Invites
  import opened ConnectionLog
  import opened Ledger
  import opened GuestSweep
  import opened Access

  /** Some stored user is an admin. */
  predicate HasAdmin(users: map<string, User>) {
    exists name :: name in users && users[name].isAdmin
  }

  /** How `POST certificates` ends. */
  datatype PostCertificateOutcome =
    | PasswordRejected                          // 401
    | Issued(certificate: Option<Certificate>)  // the record looked up by the new id, if there is one

  /** No invite entry carries `id`. */
  predicate IdUnused(entries: seq<InviteEntry>, id: string) {
    forall j :: 0 <= j < |entries| ==> entries[j].id != id
  }

  class Server {
    var users: map<string, User>
    var certificates: map<string, Certificate>
    var devices: map<string, Device>
    var inviteCodes: seq<InviteEntry>
    var guestInviteCodes: seq<InviteEntry>
    var guestIds: seq<Option<string>>
    /** How often each id has been handed to the revoke tool. */
    var revocations: multiset<string>
    /** Milliseconds. */
    var now: nat
    /** Base64 decoding and the SHA-256 hex digest. */
    const decode: string -> string
    const sha256: string -> string

    ghost predicate Valid()
      reads this
    {
      UsersKeyed(users) && CertificatesKeyed(certificates) && DevicesKeyed(devices) && TokensUnique(users)
    }

    /** A server starting over an existing store; the in-memory lists start empty. */
    constructor (decode: string -> string, sha256: string -> string, now: nat,
                 users: map<string, User>, certificates: map<string, Certificate>, devices: map<string, Device>)
      requires UsersKeyed(users) && CertificatesKeyed(certificates) && DevicesKeyed(devices) && TokensUnique(users)
      ensures Valid()
      ensures this.decode == decode && this.sha256 == sha256 && this.now == now
      ensures this.users == users && this.certificates == certificates && this.devices == devices
      ensures inviteCodes == [] && guestInviteCodes == [] && guestIds == [] && revocations == multiset{}
    {
      this.decode, this.sha256, this.now := decode, sha256, now;
      this.users, this.certificates, this.devices := users, certificates, devices;
      inviteCodes, guestInviteCodes, guestIds, revocations := [], [], [], multiset{};
    }

    /** Time passes. */
    method Tick(dt: nat)
      modifies this`now
      ensures now == old(now) + dt
    {
      now := now + dt;
    }

    // -------------------------------------------------------------------------
    // Sessions

    /**
     * `checkToken`: the holder of the token, while its session is live. It
     * writes the record back unchanged, so the store is untouched.
     */
    method CheckToken(token: Option<string>) returns (user: Option<User>)
      requires Valid()
      ensures user.Some? <==> token.Some? && exists name :: name in users && Resolves(users[name], token.value, now)
      ensures user.Some? ==> user.value.username in users && users[user.value.username] == user.value
      ensures user.Some? ==> Resolves(user.value, token.value, now)
      ensures token.Some? ==> forall name :: name in users && Resolves(users[name], token.value, now) ==> user == Some(users[name])
    {
      if token.None? {
        return None;
      }
      var holders := set name | name in users && users[name].token == token;
      assert forall other :: other in users && Resolves(users[other], token.value, now) ==> other in holders;
      if holders == {} {
        return None;
      }
      var name :| name in holders;
      forall other | other in holders
        ensures other == name
      {
        HolderIsUnique(users, token.value, other, name);
      }
      if Resolves(users[name], token.value, now) {
        user := Some(users[name]);
      } else {
        user := None;
      }
    }

    /** The gate in front of every endpoint. */
    method Authorize(token: Option<string>, requiresAuth: bool, requiresAdmin: bool) returns (g: GateOutcome)
      requires Valid()
      ensures g == Unauthorized <==>
        requiresAuth && !(token.Some? && exists name :: name in users && Resolves(users[name], token.value, now))
      ensures g == Forbidden <==>
        requiresAuth && requiresAdmin && token.Some? &&
        exists name :: name in users && Resolves(users[name], token.value, now) && !users[name].isAdmin
      ensures g.Admitted? && g.user.Some? ==>
        token.Some? && g.user.value.username in users && users[g.user.value.username] == g.user.value &&
        Resolves(g.user.value, token.value, now)
      ensures g.Admitted? && requiresAuth ==> g.user.Some?
      ensures g.Admitted? && requiresAuth && requiresAdmin ==> g.user.value.isAdmin
    {
      if !requiresAuth {
        return Admitted(None);
      }
      var user := CheckToken(token);
      g := Gate(requiresAuth, requiresAdmin, user);
    }

    /**
     * `authenticate`: on a password that checks, a fresh token and an expiry
     * three days from now are stored for the user.
     */
    method Authenticate(username: string, password: string, freshToken: string) returns (token: Option<string>)
      modifies this`users
      requires Valid() && TokenUnused(users, freshToken)
      ensures Valid()
      ensures token.Some? <==>
        username in old(users) && ValidatePassword(old(users)[username].passwordHash, password, decode, sha256)
      ensures token.Some? ==> token == Some(freshToken) && users == Login(old(users), username, freshToken, now)
      ensures token.None? ==> users == old(users)
    {
      if username in users && ValidatePassword(users[username].passwordHash, password, decode, sha256) {
        LoginStartsSession(users, username, freshToken, now, now);
        users := Login(users, username, freshToken, now);
        token := Some(freshToken);
      } else {
        token := None;
      }
    }

    /** A login followed by a request carrying the issued token. */
    method LoginThenCheck(username: string, password: string, freshToken: string)
      returns (token: Option<string>, user: Option<User>)
      modifies this`users
      requires Valid() && TokenUnused(users, freshToken)
      ensures Valid()
      ensures token.Some? ==> username in users && user == Some(users[username])
      ensures token.Some? ==> users[username].expirationDate == Some(old(now) + TokenLifespanMs)
    {
      token := Authenticate(username, password, freshToken);
      user := CheckToken(token);
      if token.Some? {
        LoginStartsSession(old(users), username, freshToken, now, now);
      }
    }

    // -------------------------------------------------------------------------
    // Users

    /** `createUser`: refuses a name that is taken. */
    method CreateUser(username: string, password: string, isAdmin: bool, smbPassword: string) returns (created: bool)
      modifies this`users
      requires Valid()
      ensures Valid()
      ensures created <==> username !in old(users)
      ensures created ==>
        users == old(users)[username := User(username, ApplyHash(password, decode, sha256), isAdmin, None, None, smbPassword)]
      ensures !created ==> users == old(users)
    {
      if username in users {
        return false;
      }
      users := users[username := User(username, ApplyHash(password, decode, sha256), isAdmin, None, None, smbPassword)];
      created := true;
    }

    /**
     * `POST users`: the body's password is decoded once here and handed to
     * `createUser`, which hashes it. The invite is looked up by id; the
     * filter meant to consume it reads a property no entry has.
     */
    method Register(username: string, encodedPassword: string, inviteCode: Option<string>, smbPassword: string)
      returns (accepted: bool)
      modifies this`users, this`inviteCodes
      requires Valid()
      ensures Valid()
      ensures accepted <==>
        UsernameOk(username) && PasswordOk(decode(encodedPassword)) && Find(old(inviteCodes), "id", inviteCode) >= 0
      ensures inviteCodes == old(inviteCodes)
      ensures accepted && username !in old(users) ==>
        var invite := old(inviteCodes)[Find(old(inviteCodes), "id", inviteCode)];
        users == old(users)[username := User(username, ApplyHash(decode(encodedPassword), decode, sha256),
                                             invite.isAdmin, None, None, smbPassword)]
      ensures !(accepted && username !in old(users)) ==> users == old(users)
    {
      var password := decode(encodedPassword);
      var k := Find(inviteCodes, "id", inviteCode);
      if UsernameOk(username) && PasswordOk(password) && k >= 0 {
        var _ := CreateUser(username, password, inviteCodes[k].isAdmin, smbPassword);
        EnrollmentFilterKeepsAll(inviteCodes, inviteCodes[k].id);
        inviteCodes := Without(inviteCodes, "inviteCode", Some(inviteCodes[k].id));
        accepted := true;
      } else {
        accepted := false;
      }
    }

    /** A user enrolled with a raw password can log in with the same raw password. */
    method RegisterThenLogin(username: string, encodedPassword: string, inviteCode: Option<string>,
                             smbPassword: string, freshToken: string)
      returns (accepted: bool, token: Option<string>)
      modifies this`users, this`inviteCodes
      requires Valid() && TokenUnused(users, freshToken)
      ensures Valid()
      ensures accepted && username !in old(users) ==> token == Some(freshToken)
    {
      accepted := Register(username, encodedPassword, inviteCode, smbPassword);
      EnrolledPasswordValidates(encodedPassword, decode, sha256);
      token := Authenticate(username, encodedPassword, freshToken);
    }

    /** `PUT users/promote` */
    method Promote(username: string)
      modifies this`users
      requires Valid()
      ensures Valid()
      ensures username in old(users) ==> users == old(users)[username := old(users)[username].(isAdmin := true)]
      ensures username !in old(users) ==> users == old(users)
    {
      if username in users {
        users := users[username := users[username].(isAdmin := true)];
      }
    }

    /**
     * `DELETE users/:username`: the record goes; the certificates the user
     * owned stay in the store, since `deleteCertificates` revokes nothing.
     */
    method DeleteUser(caller: User, username: string) returns (deleted: bool)
      modifies this`users, this`certificates, this`revocations
      requires Valid()
      ensures Valid()
      ensures deleted <==> MayDeleteUser(caller, if username in old(users) then Some(old(users)[username]) else None, username)
      ensures users == if deleted then old(users) - {username} else old(users)
      ensures certificates == old(certificates) && revocations == old(revocations)
    {
      var target := if username in users then Some(users[username]) else None;
      if MayDeleteUser(caller, target, username) {
        DeleteCertificates(username);
        users := users - {username};
        deleted := true;
      } else {
        deleted := false;
      }
    }

    // -------------------------------------------------------------------------
    // Invites

    /** `createInviteCode`: one entry per owner (an absent owner counts as one). */
    method CreateInviteCode(owner: Option<string>, isAdmin: bool, freshId: string) returns (code: string)
      modifies this`inviteCodes
      ensures Find(old(inviteCodes), "username", owner) >= 0 ==>
        code == old(inviteCodes)[Find(old(inviteCodes), "username", owner)].id && inviteCodes == old(inviteCodes)
      ensures Find(old(inviteCodes), "username", owner) == -1 ==>
        code == freshId && inviteCodes == old(inviteCodes) + [InviteEntry(freshId, isAdmin, owner, None)]
    {
      var k := Find(inviteCodes, "username", owner);
      if k >= 0 {
        code := inviteCodes[k].id;
      } else {
        inviteCodes := inviteCodes + [InviteEntry(freshId, isAdmin, owner, None)];
        code := freshId;
      }
    }

    /** Asking twice for an invite for the same owner gives the same code, and at most one entry. */
    method ReissueInvite(owner: Option<string>, isAdmin: bool, freshId: string, freshId': string)
      returns (first: string, second: string)
      modifies this`inviteCodes
      ensures first == second
      ensures inviteCodes == old(inviteCodes) || inviteCodes == old(inviteCodes) + [InviteEntry(freshId, isAdmin, owner, None)]
    {
      first := CreateInviteCode(owner, isAdmin, freshId);
      if Find(old(inviteCodes), "username", owner) == -1 {
        FindAfterAppend(old(inviteCodes), InviteEntry(freshId, isAdmin, owner, None), "username");
      }
      second := CreateInviteCode(owner, isAdmin, freshId');
    }

    /** The timed removal of `createInviteCode`. */
    method ExpireInvite(id: string)
      modifies this`inviteCodes
      ensures inviteCodes == Without(old(inviteCodes), "id", Some(id))
      ensures forall e :: e in inviteCodes <==> e in old(inviteCodes) && e.id != id
    {
      forall e ensures e in Without(inviteCodes, "id", Some(id)) <==> e in inviteCodes && e.id != id {
        WithoutMembers(inviteCodes, "id", Some(id), e);
      }
      inviteCodes := Without(inviteCodes, "id", Some(id));
    }

    /** A new invite under an unused id, once it times out, leaves the list as it was. */
    method InviteLifecycle(owner: Option<string>, isAdmin: bool, freshId: string) returns (code: string)
      modifies this`inviteCodes
      requires IdUnused(inviteCodes, freshId)
      ensures inviteCodes == old(inviteCodes)
    {
      var k := Find(inviteCodes, "username", owner);
      code := CreateInviteCode(owner, isAdmin, freshId);
      if k == -1 {
        ExpireUndoesAppend(old(inviteCodes), InviteEntry(freshId, isAdmin, owner, None));
        ExpireInvite(code);
      }
    }

    /** `GET users/init`: an admin invite, only while no user is an admin. */
    method InitAdmin(freshId: string) returns (code: Option<string>)
      modifies this`inviteCodes
      ensures HasAdmin(users) ==> code.None? && inviteCodes == old(inviteCodes)
      ensures !HasAdmin(users) && Find(old(inviteCodes), "username", None) >= 0 ==>
        code == Some(old(inviteCodes)[Find(old(inviteCodes), "username", None)].id) && inviteCodes == old(inviteCodes)
      ensures !HasAdmin(users) && Find(old(inviteCodes), "username", None) == -1 ==>
        code == Some(freshId) && inviteCodes == old(inviteCodes) + [InviteEntry(freshId, true, None, None)]
    {
      if HasAdmin(users) {
        code := None;
      } else {
        var c := CreateInviteCode(None, true, freshId);
        code := Some(c);
      }
    }

    /** `POST users/invite`: admins only; the invite belongs to the caller and is not an admin invite. */
    method InviteEndpoint(token: Option<string>, freshId: string) returns (g: GateOutcome, code: Option<string>)
      modifies this`inviteCodes
      requires Valid()
      ensures g.Admitted? <==> code.Some?
      ensures code.Some? ==> token.Some? && exists name :: name in users && users[name].isAdmin && Resolves(users[name], token.value, now)
      ensures code.None? ==> inviteCodes == old(inviteCodes)
      ensures code.Some? ==> g.Admitted? && g.user.Some?
      ensures (token.Some? && exists name :: name in users && users[name].isAdmin && Resolves(users[name], token.value, now)) ==>
        code.Some?
      ensures code.Some? && g.Admitted? && g.user.Some? ==>
        && token.Some? && g.user.value.username in users && users[g.user.value.username] == g.user.value && Resolves(g.user.value, token.value, now)
        && var owner := Some(g.user.value.username);
           var k := Find(old(inviteCodes), "username", owner);
           (k >= 0 ==> code == Some(old(inviteCodes)[k].id) && inviteCodes == old(inviteCodes)) &&
           (k == -1 ==> code == Some(freshId) && inviteCodes == old(inviteCodes) + [InviteEntry(freshId, false, owner, None)])
    {
      g := Authorize(token, true, true);
      if g.Admitted? {
        var c := CreateInviteCode(Some(g.user.value.username), false, freshId);
        code := Some(c);
        var name := g.user.value.username;
        assert name in users && users[name].isAdmin && Resolves(users[name], token.value, now);
      } else {
        code := None;
      }
    }

    /**
     * `createGuestCode`: one guest invite per owner. A new one first asks the
     * tool for an ownerless certificate, then records the invite with that
     * certificate's id (unset if the tool failed) and protects the id.
     */
    method CreateGuestCode(owner: Option<string>, freshCode: string, certId: string, issued: bool) returns (code: string)
      modifies this`guestInviteCodes, this`guestIds, this`certificates
      requires Valid() && certId !in certificates
      ensures Valid()
      ensures Find(old(guestInviteCodes), "username", owner) >= 0 ==>
        && code == old(guestInviteCodes)[Find(old(guestInviteCodes), "username", owner)].id
        && guestInviteCodes == old(guestInviteCodes) && guestIds == old(guestIds) && certificates == old(certificates)
      ensures Find(old(guestInviteCodes), "username", owner) == -1 ==>
        var certificateId := if issued then Some(certId) else None;
        && code == freshCode
        && guestInviteCodes == old(guestInviteCodes) + [InviteEntry(freshCode, false, owner, certificateId)]
        && guestIds == old(guestIds) + [certificateId]
        && certificates == if issued then old(certificates)[certId := Certificate(certId, None)] else old(certificates)
    {
      var k := Find(guestInviteCodes, "username", owner);
      if k >= 0 {
        code := guestInviteCodes[k].id;
      } else {
        var certificateId := CreateCertificate(None, certId, issued);
        guestInviteCodes := guestInviteCodes + [InviteEntry(freshCode, false, owner, certificateId)];
        guestIds := guestIds + [certificateId];
        code := freshCode;
      }
    }

    /** The first timer of `createGuestCode`: the invite goes. */
    method ExpireGuestInvite(id: string)
      modifies this`guestInviteCodes
      ensures guestInviteCodes == Without(old(guestInviteCodes), "id", Some(id))
      ensures forall e :: e in guestInviteCodes <==> e in old(guestInviteCodes) && e.id != id
    {
      forall e ensures e in Without(guestInviteCodes, "id", Some(id)) <==> e in guestInviteCodes && e.id != id {
        WithoutMembers(guestInviteCodes, "id", Some(id), e);
      }
      guestInviteCodes := Without(guestInviteCodes, "id", Some(id));
    }

    /**
     * The second timer: `guestIds.splice(guestIds.indexOf(certificateId), 1)`.
     * When the id is not there, this removes the last entry instead.
     */
    method ReleaseGuestId(certificateId: Option<string>)
      modifies this`guestIds
      ensures guestIds == SpliceOne(old(guestIds), IndexOf(old(guestIds), certificateId))
      ensures certificateId in old(guestIds) ==> multiset(guestIds) == multiset(old(guestIds)) - multiset{certificateId}
      ensures certificateId !in old(guestIds) && old(guestIds) != [] ==> guestIds == old(guestIds)[..|old(guestIds)| - 1]
    {
      if certificateId in guestIds {
        ReleaseRemovesOne(guestIds, certificateId);
      } else {
        ReleaseOfAbsentDropsLast(guestIds, certificateId);
      }
      guestIds := SpliceOne(guestIds, IndexOf(guestIds, certificateId));
    }

    /** `getGuestCertificate`: the certificate of the first guest invite with this code; no answer otherwise. */
    method DownloadGuestCertificate(code: string) returns (served: Option<string>)
      ensures served.Some? ==> exists k :: 0 <= k < |guestInviteCodes| && guestInviteCodes[k].id == code &&
                                              guestInviteCodes[k].certificateId == served
      ensures IdUnused(guestInviteCodes, code) ==> served.None?
      ensures served == GuestCertificateOf(guestInviteCodes, code)
    {
      served := GuestCertificateOf(guestInviteCodes, code);
    }

    /** A new guest code under an unused code hands out the certificate issued for it. */
    method GuestCodeServesItsCertificate(owner: Option<string>, freshCode: string, certId: string)
      returns (code: string, served: Option<string>)
      modifies this`guestInviteCodes, this`guestIds, this`certificates
      requires Valid() && certId !in certificates && IdUnused(guestInviteCodes, freshCode)
      requires Find(guestInviteCodes, "username", owner) == -1
      ensures Valid()
      ensures served == Some(certId) && certId in certificates && certificates[certId].username.None?
      ensures Some(certId) in guestIds
    {
      code := CreateGuestCode(owner, freshCode, certId, true);
      FindAfterAppend(old(guestInviteCodes), InviteEntry(freshCode, false, owner, Some(certId)), "id");
      served := DownloadGuestCertificate(code);
      assert guestIds[|guestIds| - 1] == Some(certId);
    }

    // -------------------------------------------------------------------------
    // Certificates

    /** `createCertificate`: the record exists only when the tool succeeded. */
    method CreateCertificate(owner: Option<string>, certId: string, issued: bool) returns (id: Option<string>)
      modifies this`certificates
      requires Valid() && certId !in certificates
      ensures Valid()
      ensures issued ==> id == Some(certId) && certificates == old(certificates)[certId := Certificate(certId, owner)]
      ensures !issued ==> id.None? && certificates == old(certificates)
    {
      if issued {
        certificates := certificates[certId := Certificate(certId, owner)];
        id := Some(certId);
      } else {
        id := None;
      }
    }

    /**
     * `deleteCertificateById`: the revoke tool is called, and the record is
     * deleted whatever the tool reports.
     */
    method DeleteCertificateById(id: string)
      modifies this`certificates, this`revocations
      requires Valid()
      ensures Valid()
      ensures certificates == old(certificates) - {id}
      ensures revocations == old(revocations) + multiset{id}
    {
      revocations := revocations + multiset{id};
      certificates := certificates - {id};
    }

    /** Revoking twice deletes once and calls the tool twice. */
    method RevokeTwice(id: string)
      modifies this`certificates, this`revocations
      requires Valid()
      ensures Valid()
      ensures certificates == old(certificates) - {id}
      ensures revocations[id] == old(revocations)[id] + 2
    {
      DeleteCertificateById(id);
      DeleteCertificateById(id);
    }

    /** `Certificate.find({username: owner})`: the ids of the matching rows, each once, in some order. */
    method FindCertificates(owner: Option<string>) returns (ids: seq<string>)
      ensures Distinct(ids)
      ensures forall id :: id in ids <==> id in certificates && certificates[id].username == owner
    {
      var rest := set id | id in certificates && certificates[id].username == owner;
      ids := [];
      while rest != {}
        invariant Distinct(ids)
        invariant forall id :: id in ids ==> id in certificates && certificates[id].username == owner
        invariant forall id :: id in rest <==> id in certificates && certificates[id].username == owner && id !in ids
        decreases |rest|
      {
        var id :| id in rest;
        ids := ids + [id];
        rest := rest - {id};
      }
    }

    /**
     * `deleteCertificates`: its loop walks the index keys of the found rows,
     * whose `.id` is undefined, so it revokes nothing.
     */
    method DeleteCertificates(username: string)
      modifies this`certificates, this`revocations
      requires Valid()
      ensures Valid()
      ensures certificates == old(certificates) && revocations == old(revocations)
    {
      var found := FindCertificates(Some(username));
      var targets := RevokeTargets(ForInKeys(found), IdOfKey);
      RevokeAll(targets);
      NothingToRevoke(found);
    }

    /** `deleteCertificateById` for each id in turn. */
    method RevokeAll(ids: seq<string>)
      modifies this`certificates, this`revocations
      requires Valid()
      ensures Valid()
      ensures certificates == old(certificates) - set x | x in ids
      ensures revocations == old(revocations) + multiset(ids)
    {
      var i := 0;
      while i < |ids|
        invariant 0 <= i <= |ids|
        invariant Valid()
        invariant certificates == old(certificates) - set x | x in ids[..i]
        invariant revocations == old(revocations) + multiset(ids[..i])
      {
        DeleteCertificateById(ids[i]);
        assert ids[..i + 1] == ids[..i] + [ids[i]];
        i := i + 1;
      }
      assert ids[..i] == ids;
    }

    /** `DELETE certificates`: answers only when the caller's record exists and has a name; revokes nothing. */
    method DeleteAllCertificates(caller: User) returns (answered: bool)
      modifies this`certificates, this`revocations
      requires Valid()
      ensures Valid()
      ensures answered <==> caller.username in old(users) && caller.username != ""
      ensures certificates == old(certificates) && revocations == old(revocations)
    {
      if caller.username in users && caller.username != "" {
        DeleteCertificates(caller.username);
        answered := true;
      } else {
        answered := false;
      }
    }

    /** `DELETE certificates/:id` */
    method DeleteCertificateEndpoint(caller: User, id: string) returns (d: CertificateDeletion)
      modifies this`certificates, this`revocations, this`inviteCodes, this`guestInviteCodes, this`guestIds
      requires Valid()
      ensures Valid()
      ensures d == DeleteCertificateDecision(caller, if id in old(certificates) then Some(old(certificates)[id]) else None)
      ensures d.Revoked? ==> d.id == id && certificates == old(certificates) - {id} && revocations == old(revocations) + multiset{id}
      ensures !d.Revoked? ==> certificates == old(certificates) && revocations == old(revocations)
      ensures d == Stalled ==> inviteCodes == [] && guestInviteCodes == [] && guestIds == []
      ensures d != Stalled ==>
        inviteCodes == old(inviteCodes) && guestInviteCodes == old(guestInviteCodes) && guestIds == old(guestIds)
    {
      var found := if id in certificates then Some(certificates[id]) else None;
      d := DeleteCertificateDecision(caller, found);
      if d.Revoked? {
        DeleteCertificateById(d.id);
      } else if d == Stalled {
        Restart();
      }
    }

    /**
     * The process ending on an unhandled rejection and starting again: the
     * store survives, the in-memory invite lists and protected ids (and
     * their timers) do not.
     */
    method Restart()
      modifies this`inviteCodes, this`guestInviteCodes, this`guestIds
      ensures inviteCodes == [] && guestInviteCodes == [] && guestIds == []
    {
      inviteCodes, guestInviteCodes, guestIds := [], [], [];
    }

    /**
     * A refused or missing-certificate delete ends the process, and so the
     * grace period of every guest certificate: the next sweep revokes each
     * guest that is not connected.
     */
    method StalledDeleteUnprotects(caller: User, id: string, log: Option<Log>, guest: string)
      modifies this`certificates, this`revocations, this`inviteCodes, this`guestInviteCodes, this`guestIds
      requires Valid()
      requires id !in certificates || (!caller.isAdmin && certificates[id].username != Some(caller.username))
      requires guest in Guests(certificates) && !ConnectedNow(guest, log)
      ensures guest in Victims(certificates, log, guestIds)
    {
      var d := DeleteCertificateEndpoint(caller, id);
      NothingProtectedAfterRestart(certificates, log, guest);
    }

    /** `POST certificates`: a new certificate for the caller, after re-checking the password. */
    method PostCertificate(caller: User, password: string, certId: string, issued: bool)
      returns (outcome: PostCertificateOutcome)
      modifies this`certificates
      requires Valid() && certId !in certificates
      ensures Valid()
      ensures outcome == PasswordRejected <==>
        !ValidatePassword(caller.passwordHash, password, decode, sha256) || password == ""
      ensures outcome == PasswordRejected || !issued ==> certificates == old(certificates)
      ensures outcome.Issued? && issued ==>
        && outcome.certificate == Some(Certificate(certId, Some(caller.username)))
        && certificates == old(certificates)[certId := Certificate(certId, Some(caller.username))]
      ensures outcome.Issued? && !issued ==> outcome.certificate.None?
    {
      if !ValidatePassword(caller.passwordHash, password, decode, sha256) || password == "" {
        return PasswordRejected;
      }
      var id := CreateCertificate(Some(caller.username), certId, issued);
      outcome := Issued(if id.Some? && id.value in certificates then Some(certificates[id.value]) else None);
    }

    /** `getCertificateById` over the record found by id. */
    method DownloadCertificate(caller: User, id: string) returns (served: Option<string>)
      requires Valid()
      ensures served.Some? <==> id in certificates && certificates[id].username == Some(caller.username)
      ensures served.Some? ==> served.value == id
    {
      var found := if id in certificates then Some(certificates[id]) else None;
      served := DownloadDecision(caller.username, found);
    }

    // -------------------------------------------------------------------------
    // Connection state and the guest sweep

    /** `isUserConnected`: some certificate of the user is connected. */
    method IsUserConnected(username: string, log: Option<Log>) returns (connected: bool)
      ensures connected <==> log.Some? && exists id ::
        id in certificates && certificates[id].username == Some(username) && ConnectionInfoOf(id, log.value).connected
    {
      var ids := FindCertificates(Some(username));
      var infos := GetConnectedCertificates(ids, log);
      connected := exists k :: 0 <= k < |infos| && infos[k].connected;
      if log.Some? {
        if exists id :: id in certificates && certificates[id].username == Some(username) && ConnectionInfoOf(id, log.value).connected {
          var id :| id in certificates && certificates[id].username == Some(username) && ConnectionInfoOf(id, log.value).connected;
          var k :| 0 <= k < |ids| && ids[k] == id;
          assert infos[k].connected;
        }
      }
    }

    /**
     * `checkConnectedGuestCertificates`: revokes every guest certificate that
     * is neither connected nor protected, and reports how many guests it kept.
     */
    method SweepGuests(log: Option<Log>) returns (kept: int)
      modifies this`certificates, this`revocations
      requires Valid()
      ensures Valid()
      ensures certificates == old(certificates) - Victims(old(certificates), log, guestIds)
      ensures forall id :: revocations[id] == old(revocations)[id] + if id in Victims(old(certificates), log, guestIds) then 1 else 0
      ensures kept == |Guests(old(certificates))| - |Victims(old(certificates), log, guestIds)|
    {
      var ids := FindCertificates(None);
      var infos := GetConnectedCertificates(ids, log);
      var expired := Expired(ids, ConnectedIds(infos), guestIds);
      ExpiredAreVictims(certificates, log, guestIds, ids, infos);
      ghost var victims := Victims(certificates, log, guestIds);
      ghost var guests := Guests(certificates);
      DistinctCard(ids);
      DistinctCard(expired);
      assert (set x | x in ids) == guests;
      forall id ensures multiset(expired)[id] == if id in victims then 1 else 0 {
        DistinctCount(expired, id);
      }
      RevokeAll(expired);
      kept := |ids| - |expired|;
    }

    /** A sweep keeps a protected guest certificate. */
    method SweepKeepsProtected(log: Option<Log>, id: string)
      modifies this`certificates, this`revocations
      requires Valid() && id in certificates && Protected(id, guestIds)
      ensures Valid() && id in certificates && certificates[id] == old(certificates)[id]
    {
      SweepSpares(certificates, log, guestIds, id);
      var _ := SweepGuests(log);
    }

    /** Once its only protection is released, the next sweep revokes an unconnected guest certificate. */
    method ReleaseThenSweep(log: Option<Log>, id: string)
      modifies this`guestIds, this`certificates, this`revocations
      requires Valid() && id in Guests(certificates) && multiset(guestIds)[Some(id)] == 1
      ensures Valid()
      ensures id !in certificates <==> !ConnectedNow(id, log)
    {
      ReleaseGuestId(Some(id));
      assert !Protected(id, guestIds) by {
        assert multiset(guestIds)[Some(id)] == 0;
      }
      if ConnectedNow(id, log) {
        SweepSpares(certificates, log, guestIds, id);
      } else {
        ReleasedGuestIsSwept(certificates, log, guestIds, id);
      }
      var _ := SweepGuests(log);
    }

    /**
     * A new guest certificate is safe from the sweep while its id is
     * protected, and goes at the first sweep after its release unless it is
     * connected.
     */
    method GuestGracePeriod(owner: Option<string>, freshCode: string, certId: string, log: Option<Log>)
      returns (revokedWhileProtected: bool, revokedAfterRelease: bool)
      modifies this`guestInviteCodes, this`guestIds, this`certificates, this`revocations
      requires Valid() && certId !in certificates && Some(certId) !in guestIds
      requires Find(guestInviteCodes, "username", owner) == -1
      ensures !revokedWhileProtected
      ensures revokedAfterRelease <==> !ConnectedNow(certId, log)
    {
      var _ := CreateGuestCode(owner, freshCode, certId, true);
      assert multiset(guestIds)[Some(certId)] == 1 by {
        assert multiset(guestIds) == multiset(old(guestIds)) + multiset{Some(certId)};
      }
      SweepKeepsProtected(log, certId);
      revokedWhileProtected := certId !in certificates;
      assert certId in Guests(certificates);
      ReleaseThenSweep(log, certId);
      revokedAfterRelease := certId !in certificates;
    }

    // -------------------------------------------------------------------------
    // Devices

    /**
     * `POST devices`: creates an unknown mac, renames a known one when a
     * name is given, and deletes it otherwise, in which case the call never
     * answers.
     */
    method UpsertDevice(mac: string, name: Option<string>) returns (answered: bool)
      modifies this`devices
      requires Valid()
      ensures Valid()
      ensures mac !in old(devices) || Truthy(name) ==> answered && devices == old(devices)[mac := Device(mac, name)]
      ensures mac in old(devices) && !Truthy(name) ==> !answered && devices == old(devices) - {mac}
    {
      if mac !in devices {
        devices := devices[mac := Device(mac, name)];
        answered := true;
      } else if Truthy(name) {
        devices := devices[mac := Device(mac, name)];
        answered := true;
      } else {
        devices := devices - {mac};
        answered := false;
      }
    }
  }
}
