# Credential and session engine of the VPN/SMB manager, in Dafny

This project models the server-side engine of a small VPN and file-share
manager (`server/index.js`). The engine does five things:

- it issues a session token at login and resolves tokens back to users
  while they are live;
- it keeps two time-bounded invite registries, for members and for guests;
- it keeps a certificate ledger backed by an external certificate tool;
- it reads the VPN connection log to work out each certificate's status;
- it runs a periodic sweep that revokes idle guest certificates once their
  grace period is over.

It also decides who may do what: the endpoint gate, user and certificate
deletion, certificate download, device upsert, and scrubbing records before
they are sent.

The model takes the program's own form:

- The mutable state is one class, `Server.Server`. It holds:
  - the three store tables (users, certificates, devices) as maps keyed by
    their key column;
  - the lists `inviteCodes`, `guestInviteCodes` and `guestIds` as sequences;
  - a multiset counting the calls to the revoke tool;
  - a clock.

  Its invariant `Valid()` says each map is keyed by its records' key
  column and no two users hold the same token. Every state-changing method
  keeps that invariant.
- The pure parts sit in modules beside the class:
  - `Credentials`: hashing and the registration patterns;
  - `Sessions`: token issue and resolution;
  - `Invites`: `find`, `filter`, `indexOf` and `splice`, with JavaScript's
    `undefined` for missing properties;
  - `ConnectionLog` and the lemmas in `ConnectionLogFacts`;
  - `GuestSweep`;
  - `Ledger`;
  - `Access`.
- The log scans of `getConnectionInfo` are `while` loops proved equal to
  a specification function, `ConnectionLog.ConnectionInfoOf`.
  `ConnectionLogFacts` then proves what that function means, stated
  against the log lines themselves.
- `cleanOutput` deletes properties from objects in place, so it is a method
  over objects of class `Access.Record`.

Oracles and abstractions:

- Base64 decoding and SHA-256 are uninterpreted functions, the class
  constants `decode` and `sha256`.
- `createId` is a fresh-id parameter (`freshId`, `freshToken`, `certId`,
  `freshCode`).
- The outcome of the certificate tool is a boolean parameter `issued`.
- The output of the connection-listing tool is an `Option<Log>`, with
  `None` when the tool fails. A log is a sequence of lines already sorted
  into the three kinds the server's patterns recognise, with integer
  timestamps.
- Each timer is an explicit step method:
  - `ExpireInvite` and `ExpireGuestInvite` for the two invite TTLs;
  - `ReleaseGuestId` for the end of the grace period;
  - `SweepGuests` for the periodic sweep;
  - `Tick` advances the clock.

Some behaviours of the code as written differ from what the code itself
evidently intends. The model follows the code as written:

- **Revoking someone else's certificate.** The refusal branch of
  `DELETE certificates/:id` shows that a non-admin is meant to be refused
  when revoking a certificate they do not own. That branch writes
  `res.status(403)`, but the handler takes only `req`. The call throws, and
  nothing after it runs. A refused request revokes nothing
  (`Access.DeleteCertificateDecision`). The throw rejects a promise that
  nothing handles. `String.prototype.replaceAll` (line 56) needs Node 15 or
  later, and there an unhandled rejection ends the process. The model takes
  the process as started again: the store survives, and the in-memory invite
  lists and protected guest ids are empty (`Server.Server.DeleteCertificateEndpoint`,
  `Server.Server.Restart`). So every guest certificate loses its grace
  period (`Server.Server.StalledDeleteUnprotects`).
- **Missing certificate.** In the same handler, a certificate that does not
  exist makes the callback throw, with the same outcome. For a non-admin it
  throws at line 622, where the refusal test reads `username`; for an admin
  the `!req.user.isAdmin` test cuts that short, and it throws at line 626,
  where `id` is read.
- **Consuming an invite.** The filter at line 707 is evidently meant to
  consume the invite used at enrollment. It reads `value.inviteCode`, which
  no entry has, so it removes nothing (`Invites.EnrollmentFilterKeepsAll`).
- **Revoking all of a user's certificates.** `deleteCertificates` is meant
  to revoke every certificate of the user. It revokes nothing: its `for…in`
  loop walks index keys, and a key has no `.id` (`Ledger.NothingToRevoke`).
  Deleting a user therefore leaves that user's certificates in the store
  (`Server.Server.DeleteUser`).
- **Repeated revocation.** A second revoke of the same id calls the revoke
  tool again. It leaves the store as the first one did
  (`Server.Server.RevokeTwice`). A failed tool call is not retried: the
  record is deleted whatever the tool reports (`Server.Server.DeleteCertificateById`).
- **Ending a grace period.** `splice(indexOf(x), 1)` is meant to remove `x`.
  For an id that is not there it removes the last protected id instead
  (`Invites.ReleaseOfAbsentDropsLast`).
- **Cancelling timers.** Timers are never cancelled; no such step exists.

## Model

| member | source | states |
|---|---|---|
| `Credentials.ApplyHash` | server/index.js:140-145 | definition: `sha256(decode(p))` |
| `Credentials.ValidatePassword` | server/index.js:135-138 | definition: the stored hash equals `ApplyHash(decode(p))` |
| `Credentials.UsernameOk` | server/index.js:52 | definition: 3 to 25 characters, each a lower-case letter or `_` |
| `Credentials.PasswordOk` | server/index.js:53 | definition: 4 to 50 characters, none a line terminator |
| `Credentials.ValidateDecodesTwice` | server/index.js:135-145 | the password check accepts exactly when the stored hash is `sha256(decode(decode(p)))`: the check decodes once and `applyHash` decodes again |
| `Credentials.EnrolledPasswordValidates` | server/index.js:698-706 | registration stores `applyHash(decode(raw))`, so the same raw password later passes the login check |
| `Credentials.RegistrationPatternExamples` | server/index.js:52-53 | sample names and passwords accepted and refused by `^[a-z_]{3,25}$` and `^.{4,50}$` (`.` excludes line terminators) |
| `Sessions.ExpirationDate` | server/index.js:109-113 | definition: now plus three days in milliseconds |
| `Sessions.Resolves` | server/index.js:98 | definition: the record holds the token and now is before its expiry |
| `Sessions.Login` | server/index.js:121-123 | definition: the user's record with a new expiry and token, all else kept |
| `Sessions.HolderIsUnique` | server/index.js:92-96 | with unique tokens, the user `findOne({token})` returns is the only holder |
| `Sessions.LoginStartsSession` | server/index.js:109-133 | a login with a fresh token keeps the keys and the uniqueness of tokens; it makes the user the token's only holder, live exactly while `later < now + 3 days`; it changes no other record and no other field |
| `Sessions.LoginEndsPreviousSession` | server/index.js:121-123 | after a login the user's previous token resolves for nobody |
| `Invites.Property` | server/index.js:199 | definition: `id`, `username` and `certificateId` of an entry; any other name is `undefined` |
| `Invites.Find` | server/index.js:189 | `find` by property: -1 exactly when no entry matches; otherwise the first matching index |
| `Invites.Without` | server/index.js:199 | `filter(value => value[name] !== x)` never lengthens the list |
| `Invites.WithoutCounts` | server/index.js:199 | every matching entry goes, and every other entry stays with its multiplicity |
| `Invites.WithoutMembers` | server/index.js:199 | an entry remains exactly when it was there and does not match |
| `Invites.WithoutNoMatch` | server/index.js:707 | when nothing matches, the filter returns the list unchanged |
| `Invites.FindAfterAppend` | server/index.js:193-198 | after appending a new owner's entry, `find` by that owner returns it |
| `Invites.FindIgnoresAppended` | server/index.js:189-191 | appending does not change which entry an earlier hit finds |
| `Invites.ExpireUndoesAppend` | server/index.js:194-199 | the TTL removal of an entry appended under an unused id restores the list exactly |
| `Invites.EnrollmentFilterKeepsAll` | server/index.js:707 | the post-enrollment filter keeps every invite |
| `Invites.GuestCertificateOf` | server/index.js:403 | the first entry with that code hands out its `certificateId`; a certificate comes only from an entry with that code, and none without one |
| `Invites.SpliceOne` | server/index.js:219 | definition: `splice(start, 1)`, with a negative start counted from the end |
| `Invites.IndexOf` | server/index.js:219 | `indexOf`: -1 exactly when absent, else the first position |
| `Invites.ReleaseRemovesOne` | server/index.js:219 | releasing a present id removes one occurrence of it and nothing else |
| `Invites.ReleaseOfAbsentDropsLast` | server/index.js:219 | releasing an absent id removes the last entry (`splice(-1, 1)`) |
| `ConnectionLog.Matches` | server/index.js:233-263 | definition: the matches of a pattern in log order, one per matching line |
| `ConnectionLog.SortByDateDesc` | server/index.js:254-271 | definition: stable insertion sort, newest first |
| `ConnectionLog.ConnectedOnly` | server/index.js:254 | definition: the connect results, in order |
| `ConnectionLog.First` | server/index.js:254-271 | definition: `?.[0]` and `find(x => x)`, the head or `undefined` |
| `ConnectionLog.ConnectionInfoOf` | server/index.js:227-273 | definition: connected from the newest event, addr from the newest connect's peer and then its newest hardware line |
| `ConnectionLog.NewestIndex` | server/index.js:270-271 | the index of the first element among those with the latest date |
| `ConnectionLog.MatchesStep` | server/index.js:233-253 | each `regex.exec` step extends the matches by the current line's match, if any |
| `ConnectionLog.GetConnectionInfo` | server/index.js:227-273 | the three scans and the final selection compute `ConnectionInfoOf(id, log)` |
| `ConnectionLog.GetConnectedCertificates` | server/index.js:275-289 | one status per id, in order, when the log tool succeeds; nothing when it fails |
| `ConnectionLogFacts.InsertByDatePermutes` | server/index.js:270-271 | inserting into the newest-first order adds exactly that element |
| `ConnectionLogFacts.InsertByDateKeepsOrder` | server/index.js:270-271 | insertion keeps the newest-first order |
| `ConnectionLogFacts.SortByDateDescSorts` | server/index.js:254 | `sort((a, b) => b.date - a.date)` is a permutation ordered newest first |
| `ConnectionLogFacts.SortHeadIsNewest` | server/index.js:270-271 | the stable sort's head is the first element among those with the latest date |
| `ConnectionLogFacts.NewestIndexByDates` | server/index.js:254 | the choice depends on the dates alone |
| `ConnectionLogFacts.MatchesFromLog` | server/index.js:233-263 | every match comes from a line of the log |
| `ConnectionLogFacts.MatchesCoverLog` | server/index.js:233-263 | every matching line yields a match |
| `ConnectionLogFacts.LatestMatchUnique` | server/index.js:270-271 | there is one latest matching line, taken first of equals |
| `ConnectionLogFacts.NewestMatchInLog` | server/index.js:254-263 | the newest match comes from the latest matching line |
| `ConnectionLogFacts.LatestMatchExists` | server/index.js:254-263 | a pattern that matches some line has a latest matching line |
| `ConnectionLogFacts.ConnectedOnlyAppend` | server/index.js:254 | `filter(x => x.connected)` distributes over concatenation |
| `ConnectionLogFacts.ConnectedOnlyOfResults` | server/index.js:233-254 | the connect filter leaves exactly the connect results |
| `ConnectionLogFacts.ResultHasEvent` | server/index.js:233-253 | each result comes from a connect or disconnect line with the same date and kind |
| `ConnectionLogFacts.EventHasResult` | server/index.js:233-253 | each connect or disconnect line yields a result with its date and kind |
| `ConnectionLogFacts.ConnectedIffLatestEventIsConnect` | server/index.js:227-273 | `connected` holds exactly when some connect line for the id is dated no earlier than any of its connect or disconnect lines; a connect wins a tie |
| `ConnectionLogFacts.NeverConnectedIsDisconnected` | server/index.js:270 | with no connect line the id is reported disconnected |
| `ConnectionLogFacts.LaterExitDisconnects` | server/index.js:270 | a disconnect later than every connect means disconnected |
| `ConnectionLogFacts.LatestConnectAddr` | server/index.js:254 | the selected connect result carries the peer address of the latest connect line |
| `ConnectionLogFacts.LatestHardwareAddr` | server/index.js:255-263 | the selected hardware result carries the MAC of the latest hardware line |
| `ConnectionLogFacts.AddrFollowsLatestConnect` | server/index.js:254-272 | `addr` is the MAC on the latest hardware line for the peer address of the latest connect line |
| `ConnectionLogFacts.AddrAbsentWithoutConnect` | server/index.js:254-255 | with no connect line `addr` is undefined |
| `ConnectionLogFacts.AddrAbsentWithoutHardware` | server/index.js:255-272 | with no hardware line for that peer address `addr` is undefined |
| `GuestSweep.Guests` | server/index.js:342-344 | definition: the ids of certificates with no owner |
| `GuestSweep.ConnectedNow` | server/index.js:346-347 | definition: the log tool succeeded and `ConnectionInfoOf` reports the id connected |
| `GuestSweep.Protected` | server/index.js:347 | definition: the id is in `guestIds` |
| `GuestSweep.Victims` | server/index.js:347 | the victims are guest certificates |
| `GuestSweep.ConnectedIds` | server/index.js:346 | the ids of exactly the connected results |
| `GuestSweep.Expired` | server/index.js:347 | keeps exactly the found ids that are neither connected nor protected, each once |
| `GuestSweep.SweepSpares` | server/index.js:340-350 | owned, connected and protected certificates are never revoked |
| `GuestSweep.FailedToolRevokesUnprotected` | server/index.js:284-286 | when the log tool fails, every unprotected guest is a victim |
| `GuestSweep.KeptIsSpared` | server/index.js:348 | victims and spared guests split the guests, so the count returned is the number of spared guests |
| `GuestSweep.ReleasedGuestIsSwept` | server/index.js:219 | an unconnected guest is revoked exactly when it is no longer protected |
| `GuestSweep.NothingProtectedAfterRestart` | server/index.js:340-352 | with no protected ids, every unconnected guest certificate is a victim |
| `GuestSweep.ConnectedIdsFollowLog` | server/index.js:346 | a found id is among the connected ids exactly when the log shows it connected |
| `GuestSweep.ExpiredAreVictims` | server/index.js:343-347 | the filter over the found certificates and their reported statuses yields exactly the victims |
| `Ledger.DistinctCard` | server/index.js:348 | a list of distinct ids has as many elements as its set |
| `Ledger.DistinctCount` | server/index.js:348 | each id of a distinct list is revoked once |
| `Ledger.ForInKeys` | server/index.js:381 | the `for…in` keys, one per element: definition `"0"`, `"1"`, … |
| `Ledger.IdOfKey` | server/index.js:382 | definition: a key string has no `.id`, always `undefined` |
| `Ledger.RevokeTargets` | server/index.js:381-385 | the loop revokes at most one id per key |
| `Ledger.NothingToRevoke` | server/index.js:376-389 | whatever certificates are found, `deleteCertificates` revokes none |
| `Access.Gate` | server/index.js:497-517 | 401 exactly when a route needs a user and there is none; 403 exactly when it needs an admin and the user is not one; an admin route admits only admins; open routes admit without a user |
| `Access.MayDeleteUser` | server/index.js:741 | definition: `(user && self) || admin`, grouped as JavaScript does |
| `Access.DeleteUserRule` | server/index.js:741 | an admin may delete any name, stored or not; anyone else only their own stored account |
| `Access.DeleteCertificateDecision` | server/index.js:617-633 | revoked exactly when the record exists, has a non-empty id, and the caller is an admin or its owner; a refused or missing certificate stalls |
| `Access.DownloadDecision` | server/index.js:471-481 | served exactly to the owner, and the served id is the certificate's |
| `Access.GuestCertificateNotServedByOwnerRoute` | server/index.js:476 | no user can fetch a guest certificate through the owner route |
| `Access.CleanOutput` | server/index.js:483-486 | every item, aliased or not, loses exactly the four properties in place |
| `Access.Truthy` | server/index.js:591 | definition: a string that is present and not empty |
| `Access.UserFields` | server/index.js:70-77 | definition: the six columns of a user row |
| `Access.CleanedUserFields` | server/index.js:57-62 | a cleaned user keeps name, admin flag and share password, and loses hash, token and expiry |
| `Server.Server.constructor` | server/index.js:84-86 | starts over an existing store with empty invite lists |
| `Server.Server.Tick` | server/index.js:92-107 | advances the clock that `checkToken` compares against |
| `Server.Server.CheckToken` | server/index.js:92-107 | returns a user exactly when some stored user holds the token and now is before its expiry; the user returned is that stored record and every live holder is it; the store is untouched |
| `Server.Server.Authorize` | server/index.js:497-517 | token check then gate: 401 exactly when the route needs a user and the token resolves to none; 403 exactly when it needs an admin and the token resolves to a live non-admin; otherwise admitted, with the live holder on authenticated routes |
| `Server.Server.Authenticate` | server/index.js:115-133 | succeeds exactly when the user exists and the password checks; on success stores the fresh token and an expiry three days on; on failure the store is unchanged |
| `Server.Server.LoginThenCheck` | server/index.js:115-133 | after a successful login the issued token resolves to the logged-in user, expiring three days after the login |
| `Server.Server.CreateUser` | server/index.js:147-164 | creates exactly when the name is free, with hash `applyHash(password)`, the given admin flag and no session |
| `Server.Server.Register` | server/index.js:698-715 | accepted exactly when the name and decoded password match the patterns and an invite with that id exists; a free name is created with the invite's admin flag; the invite list is never shrunk |
| `Server.Server.RegisterThenLogin` | server/index.js:698-706 | a newly enrolled user logs in with the same raw password |
| `Server.Server.Promote` | server/index.js:717-733 | sets the admin flag of a stored user; nothing else changes |
| `Server.Server.DeleteUser` | server/index.js:735-754 | deletes exactly when the caller is the stored user themself, or is an admin; the certificates and the revoke count stay as they were |
| `Server.Server.CreateInviteCode` | server/index.js:188-202 | an owner with an entry gets its id and the list is unchanged; otherwise exactly one entry `{id, isAdmin, username}` is appended |
| `Server.Server.ReissueInvite` | server/index.js:188-202 | asking twice for the same owner returns the same code and adds at most one entry |
| `Server.Server.ExpireInvite` | server/index.js:199 | the TTL removal deletes exactly the entries with that id |
| `Server.Server.InviteLifecycle` | server/index.js:188-202 | a new invite, once expired, leaves the list as it was |
| `Server.HasAdmin` | server/index.js:654 | definition: some stored user is an admin |
| `Server.Server.InitAdmin` | server/index.js:652-661 | an admin invite exactly while no user is an admin; a pending ownerless invite is reused |
| `Server.Server.InviteEndpoint` | server/index.js:687-692 | an invite exactly for a live admin token; the code is that admin's existing entry, or a new non-admin entry under the fresh id owned by them |
| `Server.Server.CreateGuestCode` | server/index.js:204-225 | deduplicated by owner; a new code creates an ownerless certificate only when the tool succeeds, appends one guest entry carrying that certificate's id, and protects the id in `guestIds` |
| `Server.Server.ExpireGuestInvite` | server/index.js:218 | the TTL removal deletes exactly the guest entries with that id |
| `Server.Server.ReleaseGuestId` | server/index.js:219 | a present id loses one occurrence; an absent one removes the last protected id |
| `Server.Server.DownloadGuestCertificate` | server/index.js:401-408 | serves the certificate of the first guest invite with that code; nothing for an unknown code |
| `Server.Server.GuestCodeServesItsCertificate` | server/index.js:204-225 | a new guest code hands out the ownerless certificate just issued for it, which is protected |
| `Server.Server.CreateCertificate` | server/index.js:354-374 | adds `{id, username}` exactly when the tool succeeds; otherwise the store is unchanged |
| `Server.Server.DeleteCertificateById` | server/index.js:391-399 | calls the revoke tool and deletes the record, whatever the tool reports |
| `Server.Server.RevokeTwice` | server/index.js:391-399 | a second revoke leaves the store as the first did, and calls the tool again |
| `Server.Server.FindCertificates` | server/index.js:332-334 | exactly the ids of the owner's certificates, each once |
| `Server.Server.DeleteCertificates` | server/index.js:376-389 | leaves the certificates and the revoke count unchanged |
| `Server.Server.RevokeAll` | server/index.js:348 | revokes each listed id: those records go and each id is counted once per listing |
| `Server.Server.DeleteAllCertificates` | server/index.js:635-646 | answers exactly when the caller's record exists and its name is non-empty; revokes nothing |
| `Server.Server.DeleteCertificateEndpoint` | server/index.js:617-633 | follows `DeleteCertificateDecision`; a revocation removes exactly that id and counts one tool call; a stalled call leaves the store and empties the invite lists and protected ids; otherwise nothing changes |
| `Server.Server.Restart` | server/index.js:84-86 | after the process ends and starts again, the invite lists and protected ids are empty |
| `Server.Server.StalledDeleteUnprotects` | server/index.js:617-633 | after a refused or missing-certificate delete, the next sweep revokes every unconnected guest certificate |
| `Server.Server.PostCertificate` | server/index.js:539-551 | 401 exactly when the password fails the check or is empty; otherwise a certificate owned by the caller exists exactly when the tool succeeded |
| `Server.Server.DownloadCertificate` | server/index.js:471-481 | serves exactly the caller's own certificate |
| `Server.Server.IsUserConnected` | server/index.js:330-338 | true exactly when the log tool succeeds and some certificate of the user is reported connected |
| `Server.Server.SweepGuests` | server/index.js:340-352 | deletes exactly the victims, counts one revoke call for each and none for other ids, and returns the number of guests minus the number of victims |
| `Server.Server.SweepKeepsProtected` | server/index.js:347 | a sweep leaves a protected certificate in place |
| `Server.Server.ReleaseThenSweep` | server/index.js:219 | after the only protection is released, the next sweep revokes the guest certificate exactly when it is not connected |
| `Server.Server.GuestGracePeriod` | server/index.js:204-225 | a new guest certificate survives a sweep while protected; after release the next sweep revokes it exactly when it is not connected |
| `Server.Server.UpsertDevice` | server/index.js:579-599 | an unknown mac is created and a known one renamed when the name is truthy, and the call answers; a known mac without a truthy name is deleted and the call never answers |

## Left out

- HTTP plumbing is not modelled: routing, status codes and headers, static
  files, and TLS key loading (lines 1-45, 488-535, 756-766). Only the
  decisions are modelled, and "never answers" is an outcome value.
- The shell tools are oracles: certificate creation, revoke, download,
  SMB user and share scripts, and the connection listing. Their text output
  is left out. The SMB scripts called at login, registration and user
  deletion change no modelled state.
- The SQLite wrapper is modelled as exact-match maps keyed by username, id
  and mac. Row order is left out, so `FindCertificates` returns ids in an
  unspecified order. Rows are assumed to carry their key column. A filter on
  an `undefined` value is assumed to match exactly the rows whose field is
  NULL (`Certificate.find({username: undefined})` at lines 342-344, and
  `findOne({id: undefined})` at line 547). A wrapper that binds NULL to
  `= ?` would match no row, and one that drops undefined keys would match
  every row; the sweep and the owner checks depend on this assumption.
- Real base64, SHA-256 and `Math.random` ids are not modelled: they are
  uninterpreted functions and fresh-id parameters. Freshness is a
  precondition: `TokenUnused` for tokens, and `certId !in certificates`
  for certificate ids.
- Calendar arithmetic is out: `setDate(+3)` is modelled as +3 × 24 h, so
  daylight-saving shifts are ignored. Timestamp parsing is out too; every
  matched timestamp is taken as a valid integer.
- The regular expressions are modelled only as log-line kinds. Character
  matching and the disconnect pattern's prefix matching of ids are left
  out. `PasswordOk` counts Unicode code points, not UTF-16 units.
- Request fields that are absent (`undefined`) are modelled only where
  `find` compares them. A missing body password makes `Buffer.from` throw
  and, like the stalled delete, ends the process; that path is left out. So is a missing username, which the pattern tests as
  the literal text "undefined".
- Timers are explicit steps. Concurrency between in-flight callbacks is out
  of scope; each operation runs to completion.
- Several operations compose modelled parts and are left out:
  - `getUsers`, which is `isUserConnected` per user plus the sweep plus
    `cleanOutput`;
  - the `GET certificates` listing, which merges records with
    `getConnectedCertificates`;
  - `GET devices` and `users/current`.
- `certificates/download/:type` calls `getCertificate`, a function that is
  not defined in `server/index.js`. The call throws and ends the process.
  The endpoint is not part of this model.
- DeleteCertificateEndpoint: a stalled call is modelled as the process
  ending and being started again with the same store. Whether something
  restarts it is outside the program; if nothing does, the server is simply
  down. Timers pending at the crash are lost with it, which the model does
  not show because timers are explicit steps.
- The torrent endpoints, the client application and the sample user script
  are not part of this model.
