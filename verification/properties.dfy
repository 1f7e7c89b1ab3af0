/** Properties that relate several operations of the user model: how
    validation, hashing, sanitising and the credential check fit together
    along the record's lifecycle (validate, hash, store, sanitise, answer). */
module UserProperties {
  import opened Wrappers
  import opened Validation
  import opened Users

  /** The length rule on a present password does not depend on whether a hash
      is already stored; only the requiredness of an empty one does. */
  lemma PasswordLengthIgnoresStoredHash(u: User, otherHash: string, isEmail: string -> bool)
    requires u.password != ""
    ensures var v := u.(encryptedPassword := otherHash);
      (Password in Validate(u, isEmail) <==> Password in Validate(v, isEmail))
  {
  }

  /** A record that passes validation has a well-formed email and a way to
      authenticate: a stored hash, or a plaintext of acceptable length. */
  lemma ValidRecordHasCredential(u: User, isEmail: string -> bool)
    requires Validate(u, isEmail) == map[]
    ensures u.email != "" && isEmail(u.email)
    ensures u.encryptedPassword != "" || MinPasswordLength <= |u.password| <= MaxPasswordLength
  {
  }

  /** Sanitising twice is sanitising once. */
  lemma SanitizeIdempotent(u: User)
    ensures Sanitize(Sanitize(u)) == Sanitize(u)
  {
  }

  /** Sanitising a record does not change the outcome of any credential check
      on it: the check reads only the stored hash. */
  lemma SanitizeKeepsCredential(u: User, candidate: string, compare: (string, string) -> Option<string>)
    ensures ComparePassword(Sanitize(u), candidate, compare) == ComparePassword(u, candidate, compare)
  {
  }

  /** After a successful `BeforeCreate`, a credential check compares against
      the fresh hash of the plaintext when there was one, and against the
      previously stored hash otherwise. */
  lemma CheckAfterCreate(u: User, candidate: string, generate: string -> Result<string>,
                         compare: (string, string) -> Option<string>)
    requires BeforeCreate(u, generate).failure.None?
    ensures u.password != "" ==>
      (ComparePassword(BeforeCreate(u, generate).user, candidate, compare) <==>
        compare(generate(u.password).value, candidate).None?)
    ensures u.password == "" ==>
      (ComparePassword(BeforeCreate(u, generate).user, candidate, compare) <==>
        ComparePassword(u, candidate, compare))
  {
  }

  /** A failed `BeforeCreate` leaves every credential check as it was. */
  lemma FailedCreateKeepsCredential(u: User, candidate: string, generate: string -> Result<string>,
                                    compare: (string, string) -> Option<string>)
    requires BeforeCreate(u, generate).failure.Some?
    ensures ComparePassword(BeforeCreate(u, generate).user, candidate, compare) == ComparePassword(u, candidate, compare)
  {
  }

  /** If the hashing library keeps its promise that every hash it produces
      verifies against its plaintext, then a record created from a plaintext
      and then sanitised still accepts that plaintext. */
  lemma CreateThenSanitizeAcceptsPassword(u: User, generate: string -> Result<string>,
                                          compare: (string, string) -> Option<string>)
    requires forall p | generate(p).Ok? :: compare(generate(p).value, p).None?
    requires u.password != ""
    requires BeforeCreate(u, generate).failure.None?
    ensures ComparePassword(Sanitize(BeforeCreate(u, generate).user), u.password, compare)
  {
  }

  /** The create path end to end: a record that passes validation and is
      hashed without error leaves sanitisation with no plaintext but with a
      stored hash, provided the hashing library never returns an empty hash. */
  lemma ValidatedCreateKeepsHash(u: User, isEmail: string -> bool, generate: string -> Result<string>)
    requires forall p | generate(p).Ok? :: generate(p).value != ""
    requires Validate(u, isEmail) == map[]
    requires BeforeCreate(u, generate).failure.None?
    ensures Sanitize(BeforeCreate(u, generate).user).password == ""
    ensures Sanitize(BeforeCreate(u, generate).user).encryptedPassword != ""
  {
    ValidRecordHasCredential(u, isEmail);
  }
}
