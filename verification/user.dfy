/** The user record of model/user.go and its four operations: field
    validation, hashing the password before the record is stored, clearing the
    plaintext before the record is sent out, and checking a candidate password.

    The three library calls the source makes are parameters of the operations
    that use them, and nothing is assumed about them except that, as Dafny
    functions, they are deterministic: one `generate` fixes one hash per
    plaintext, so two salted hashing calls need two `generate` arguments.
    The parameters are:
    - `isEmail`  — the email-syntax check behind `is.Email`;
    - `generate` — `bcrypt.GenerateFromPassword` at the default cost;
    - `compare`  — `bcrypt.CompareHashAndPassword`, `None` standing for nil. */
module Users {
  import opened Wrappers
  import opened Validation

  /** A row of the "users" table. `password` is the plaintext a client sent
      (empty when none); `encryptedPassword` is the stored bcrypt hash. */
  datatype User = User(id: int, email: string, password: string, encryptedPassword: string)

  /** The fields that carry validation rules. */
  datatype Field = Email | Password

  const MinPasswordLength: nat := 8
  const MaxPasswordLength: nat := 16

  /** `RequiredIf(cond)`: a custom rule that demands a non-blank value when
      `cond` holds and accepts every value otherwise. */
  function RequiredIf(cond: bool): (rule: string -> Option<Reason>)
    ensures forall v :: rule(v).Some? <==> cond && v == ""
    ensures forall v :: rule(v).Some? ==> rule(v) == Some(Blank)
  {
    v => if cond then CheckRequired(v) else None
  }

  /** `Validate`: the email must be present and well formed; the password is
      required only while no hash is stored, and a password that is present
      must have between 8 and 16 characters. Each failing field is reported
      with the first rule it breaks; the empty map means the record is valid. */
  function Validate(u: User, isEmail: string -> bool): (errs: map<Field, Reason>)
    ensures Email in errs <==> u.email == "" || !isEmail(u.email)
    ensures u.email == "" ==> Email in errs && errs[Email] == Blank
    ensures u.email != "" && !isEmail(u.email) ==> Email in errs && errs[Email] == NotEmail
    ensures Password in errs <==>
      || (u.password == "" && u.encryptedPassword == "")
      || (u.password != "" && !(MinPasswordLength <= |u.password| <= MaxPasswordLength))
    ensures u.password == "" && u.encryptedPassword == "" ==> Password in errs && errs[Password] == Blank
    ensures u.password != "" && !(MinPasswordLength <= |u.password| <= MaxPasswordLength) ==>
      Password in errs && errs[Password] == BadLength(MinPasswordLength, MaxPasswordLength)
  {
    var fields := [
      FieldRules(Email, u.email, [Required, EmailFormat]),
      FieldRules(Password, u.password,
        [By(RequiredIf(u.encryptedPassword == "")), Length(MinPasswordLength, MaxPasswordLength)])
    ];
    EmailRulesFailure(u.email, isEmail);
    PasswordRulesFailure(u.password, u.encryptedPassword, isEmail);
    TwoFieldStruct(fields[0], fields[1], isEmail);
    ValidateStruct(fields, isEmail)
  }

  /** The email rules fail with `Blank` on the empty string, with `NotEmail`
      on any other string the syntax check rejects, and pass otherwise. */
  lemma EmailRulesFailure(email: string, isEmail: string -> bool)
    ensures FirstFailure([Required, EmailFormat], email, isEmail) ==
      if email == "" then Some(Blank) else if !isEmail(email) then Some(NotEmail) else None
  {
  }

  /** The password rules fail with `Blank` on the empty string while no hash is
      stored, with a length error on a present password outside [8, 16], and
      pass otherwise. */
  lemma PasswordRulesFailure(password: string, encryptedPassword: string, isEmail: string -> bool)
    ensures FirstFailure([By(RequiredIf(encryptedPassword == "")), Length(MinPasswordLength, MaxPasswordLength)], password, isEmail) ==
        if password == "" then (if encryptedPassword == "" then Some(Blank) else None)
        else if !(MinPasswordLength <= |password| <= MaxPasswordLength) then Some(BadLength(MinPasswordLength, MaxPasswordLength))
        else None
  {
  }

  /** A struct check over two differently named fields reports each field's
      own first failure and nothing else. */
  lemma TwoFieldStruct<F>(a: FieldRules<F>, b: FieldRules<F>, isEmail: string -> bool)
    requires a.name != b.name
    ensures var errs := ValidateStruct([a, b], isEmail);
      && (a.name in errs <==> FieldError(a, isEmail).Some?)
      && (b.name in errs <==> FieldError(b, isEmail).Some?)
      && (a.name in errs ==> Some(errs[a.name]) == FieldError(a, isEmail))
      && (b.name in errs ==> Some(errs[b.name]) == FieldError(b, isEmail))
  {
  }

  /** `EncryptMessage`: Go's (value, error) pair. On failure the value is the
      empty string and the library's error is passed on; on success the
      library's hash is returned unchanged. */
  function EncryptMessage(password: string, generate: string -> Result<string>): (r: (string, Option<string>))
    ensures r.1.Some? <==> generate(password).Err?
    ensures r.1.Some? ==> r.0 == "" && r.1.value == generate(password).error
    ensures r.1.None? ==> r.0 == generate(password).value
  {
    match generate(password)
    case Ok(enc) => (enc, None)
    case Err(e) => ("", Some(e))
  }

  /** The record after an operation that mutates it in place, together with
      the error the operation returned (`None` for nil). */
  datatype Effect = Effect(user: User, failure: Option<string>)

  /** `BeforeCreate`: a non-empty plaintext is hashed and the hash stored; a
      hashing failure is returned and the record is left as it was; an empty
      plaintext changes nothing. The plaintext itself is never cleared. */
  function BeforeCreate(u: User, generate: string -> Result<string>): (r: Effect)
    ensures u.password == "" ==> r == Effect(u, None)
    ensures r.failure.Some? <==> u.password != "" && generate(u.password).Err?
    ensures r.failure.Some? ==> r.user == u && r.failure.value == generate(u.password).error
    ensures r.user.id == u.id && r.user.email == u.email && r.user.password == u.password
    ensures u.password != "" && r.failure.None? ==> Ok(r.user.encryptedPassword) == generate(u.password)
    ensures r.user.encryptedPassword == u.encryptedPassword || generate(u.password) == Ok(r.user.encryptedPassword)
  {
    if |u.password| > 0 then
      var (enc, err) := EncryptMessage(u.password, generate);
      if err.Some? then Effect(u, err)
      else Effect(u.(encryptedPassword := enc), None)
    else
      Effect(u, None)
  }

  /** `Sanitize`: clears the plaintext and keeps every other field. */
  function Sanitize(u: User): (r: User)
    ensures r.password == ""
    ensures r.id == u.id && r.email == u.email && r.encryptedPassword == u.encryptedPassword
  {
    u.(password := "")
  }

  /** `ComparePassword`: true exactly when the library comparison of the stored
      hash with the candidate returns no error; a mismatch and a malformed hash
      both give false. */
  function ComparePassword(u: User, candidate: string, compare: (string, string) -> Option<string>): (ok: bool)
    ensures ok <==> compare(u.encryptedPassword, candidate).None?
  {
    compare(u.encryptedPassword, candidate) == None
  }
}
