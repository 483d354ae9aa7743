/** SecurityUtil: the ownership rule and the password encoder.
    The thread-global security context becomes an explicit principal: `None` when there is
    no Authentication, otherwise `Some(name)` with the Authentication's name. The injected
    PasswordEncoder becomes an uninterpreted function value `encoder`. */
module Security {
  import opened Wrappers

  /** Whether `username` is the name of the current principal. */
  predicate IsCurrentAuthenticatedUsername(principal: Option<string>, username: string): (owner: bool)
    ensures owner <==> principal == Some(username)
  {
    principal.Some? && principal.value == username
  }

  /** The stored credential for `password`: the encoder's output, with nothing added or removed. */
  function EncodePassword(encoder: string -> string, password: string): (hash: string) {
    encoder(password)
  }

  /** Without an authenticated principal nobody owns anything. */
  lemma NoPrincipalOwnsNothing(username: string)
    ensures !IsCurrentAuthenticatedUsername(None, username)
  {
  }

  /** With a principal, ownership is exact, case-sensitive equality of the two names. */
  lemma OwnershipIsExactEquality(name: string, username: string)
    ensures IsCurrentAuthenticatedUsername(Some(name), username) <==> name == username
    ensures !IsCurrentAuthenticatedUsername(Some("Alice"), "alice")
  {
  }
}
