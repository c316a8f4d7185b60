/**
 * Session tokens stored in user records: issuing a token at login and
 * resolving a presented token to its holder while the session is live.
 */
module Sessions {
  import opened Options
  import opened Records

  /** `getExpirationDate`: three days after `now`. */
  function ExpirationDate(now: int): int {
    now + TokenLifespanMs
  }

  /** `checkToken`'s test: the stored token matches and `now` is before the expiry. */
  predicate Resolves(u: User, token: string, now: int) {
    u.token == Some(token) && u.expirationDate.Some? && now < u.expirationDate.value
  }

  /** No two users hold the same token. */
  ghost predicate TokensUnique(users: map<string, User>) {
    forall a, b :: a in users && b in users && a != b && users[a].token.Some? ==> users[a].token != users[b].token
  }

  /** A fresh token: no stored user holds it. */
  predicate TokenUnused(users: map<string, User>, token: string) {
    forall name :: name in users ==> users[name].token != Some(token)
  }

  /** The record update `authenticate` persists after a successful password check. */
  function Login(users: map<string, User>, username: string, token: string, now: int): map<string, User>
    requires username in users
  {
    users[username := users[username].(expirationDate := Some(ExpirationDate(now)), token := Some(token))]
  }

  /** With unique tokens, a token is held by at most one user. */
  lemma HolderIsUnique(users: map<string, User>, token: string, a: string, b: string)
    requires TokensUnique(users)
    requires a in users && b in users
    requires users[a].token == Some(token) && users[b].token == Some(token)
    ensures a == b
  {
  }

  /**
   * After a login with a fresh token, the logged-in user is its only holder,
   * the session is live exactly until three days after the login, and
   * nothing else in any record changes.
   */
  lemma LoginStartsSession(users: map<string, User>, username: string, token: string, now: int, later: int)
    requires UsersKeyed(users) && TokensUnique(users)
    requires username in users && TokenUnused(users, token)
    ensures UsersKeyed(Login(users, username, token, now))
    ensures TokensUnique(Login(users, username, token, now))
    ensures Login(users, username, token, now).Keys == users.Keys
    ensures forall name :: name in users && Login(users, username, token, now)[name].token == Some(token) ==> name == username
    ensures Resolves(Login(users, username, token, now)[username], token, later) <==> later < now + TokenLifespanMs
    ensures forall name :: name in users && name != username ==> Login(users, username, token, now)[name] == users[name]
    ensures var u := Login(users, username, token, now)[username];
      u.username == username && u.passwordHash == users[username].passwordHash &&
      u.isAdmin == users[username].isAdmin && u.smbPassword == users[username].smbPassword
  {
    var r := Login(users, username, token, now);
    forall a, b | a in r && b in r && a != b && r[a].token.Some?
      ensures r[a].token != r[b].token
    {
      if a == username {
        assert users[b].token != Some(token);
      } else if b == username {
        assert users[a].token != Some(token);
      } else {
        assert users[a].token != users[b].token;
      }
    }
  }

  /**
   * A login replaces the user's previous token: afterwards no user holds the
   * old one, so it no longer resolves.
   */
  lemma LoginEndsPreviousSession(users: map<string, User>, username: string, token: string, now: int, later: int)
    requires TokensUnique(users)
    requires username in users && TokenUnused(users, token)
    requires users[username].token.Some?
    ensures forall name :: name in users ==>
      !Resolves(Login(users, username, token, now)[name], users[username].token.value, later)
  {
    var previous := users[username].token.value;
    var r := Login(users, username, token, now);
    forall name | name in users
      ensures r[name].token != Some(previous)
    {
      if name != username {
        assert users[name].token != users[username].token;
      }
    }
  }
}
