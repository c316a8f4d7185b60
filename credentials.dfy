/**
 * Password hashing and the registration format rules. Base64 decoding and
 * SHA-256 are left uninterpreted: they are passed in as functions.
 */
module Credentials {

  /** `applyHash`: decode the transport encoding, then digest. */
  function ApplyHash(password: string, decode: string -> string, sha256: string -> string): string {
    sha256(decode(password))
  }

  /**
   * `validatePassword`: the presented password is decoded once here and once
   * more inside `ApplyHash`.
   */
  function ValidatePassword(passwordHash: string, password: string,
                            decode: string -> string, sha256: string -> string): (ok: bool)
  {
    passwordHash == ApplyHash(decode(password), decode, sha256)
  }

  /** The check path applies the decoding twice before hashing. */
  lemma ValidateDecodesTwice(passwordHash: string, password: string,
                             decode: string -> string, sha256: string -> string)
    ensures ValidatePassword(passwordHash, password, decode, sha256)
        <==> passwordHash == sha256(decode(decode(password)))
  {
  }

  /**
   * Registration stores `ApplyHash(decode(raw))` (the body is decoded once
   * before `createUser` hashes it), so the same raw password passes the
   * login check: both paths decode twice.
   */
  lemma EnrolledPasswordValidates(raw: string, decode: string -> string, sha256: string -> string)
    ensures ValidatePassword(ApplyHash(decode(raw), decode, sha256), raw, decode, sha256)
  {
  }

  /** `^[a-z_]{3,25}$` */
  predicate UsernameOk(username: string) {
    3 <= |username| <= 25 &&
    forall i :: 0 <= i < |username| ==> ('a' <= username[i] <= 'z' || username[i] == '_')
  }

  /** The characters a JavaScript `.` does not match. */
  predicate IsLineTerminator(c: char) {
    c == '\n' || c == '\r' || c == '\U{2028}' || c == '\U{2029}'
  }

  /** `^.{4,50}$` */
  predicate PasswordOk(password: string) {
    4 <= |password| <= 50 &&
    forall i :: 0 <= i < |password| ==> !IsLineTerminator(password[i])
  }

  /** Sample inputs for the two registration patterns. */
  lemma RegistrationPatternExamples()
    ensures UsernameOk("alice") && UsernameOk("a_b") && UsernameOk("_________________________")
    ensures !UsernameOk("al") && !UsernameOk("Alice") && !UsernameOk("al1ce") && !UsernameOk("")
    ensures !UsernameOk("__________________________")
    ensures PasswordOk("pass") && !PasswordOk("abc") && !PasswordOk("pa\nss")
  {
    assert !('a' <= 'A' <= 'z') && 'A' != '_';
    assert "Alice"[0] == 'A';
    assert "al1ce"[2] == '1';
    assert "pa\nss"[2] == '\n';
  }
}
