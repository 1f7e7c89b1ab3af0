# User record model of a Go REST API

This project models `model/user.go` of a small Go REST service: the `User`
record stored in the "users" table and its four operations.

- `Validate` checks the record with the ozzo-validation library: the email is
  required and must be a syntactically valid address; the plaintext password
  is required only while no bcrypt hash is stored (`RequiredIf`), and a
  password that is present must be 8 to 16 characters long. Every failing
  field is reported, each with the first rule it breaks.
- `BeforeCreate` hashes a non-empty plaintext with bcrypt (`EncryptMessage`)
  and stores the hash; a hashing error is returned and the record is left
  untouched.
- `Sanitize` clears the plaintext before the record is sent in a response.
- `ComparePassword` checks a candidate password against the stored hash.

Files:

- `wrappers.dfy` — `Option` and `Result` (a value or a Go error message).
- `validation.dfy` — the part of ozzo-validation the record uses: the rules
  `Required`, `is.Email`, `Length(min, max)` and custom rule functions
  (`By`), `Validate` on one value (first failing rule wins) and
  `ValidateStruct` (one error per failing field, collected in a map; the
  empty map stands for a nil error).
- `user.dfy` — the `User` datatype and the operations of `model/user.go`.
- `properties.dfy` — lemmas that relate the operations along the record's
  lifecycle.

The three library calls are parameters of the operations that make them,
and nothing is assumed about them except where a lemma states a hypothesis:
`isEmail` for the syntax check behind `is.Email`, `generate` for
`bcrypt.GenerateFromPassword` (a hash or an error), and `compare` for
`bcrypt.CompareHashAndPassword` (`None` standing for a nil error).
Being Dafny functions, the parameters are deterministic: one `generate`
argument fixes one result per plaintext, so two hashing calls with bcrypt's
random salt are modelled by two different `generate` arguments.

The source mutates the record through a pointer. Here every operation is a
pure function; `BeforeCreate` returns an `Effect` holding the record as it is
after the call and the error it returned, so that "unchanged on error" can be
stated.

Three facts about ozzo-validation are modelling assumptions, since the
library is not part of this model: its `Length` and `is.Email` rules accept
the empty value (leaving emptiness to `Required`); a length is the number of
elements of the string (`|s|` over a sequence of characters); and a `Length`
bound of 0 imposes no bound on that side. The record only ever uses
`Length(8, 16)`, so the third assumption does not affect any property of the
record.

A reader might expect three properties of a password store that
`model/user.go` does not establish, and the model does not claim them: that
the stored hash only ever comes from the plaintext (the Go field is public and
nothing in the file prevents a caller from setting it; the model shows only
that `BeforeCreate` stores nothing but a hash the library produced), that a
hash verifies against its plaintext, and that two hashes of one password
differ. The last two are properties of bcrypt and are listed under
"## Left out".

## Model

| member | source | states |
|---|---|---|
| `Validation.CheckEmail` | model/user.go:20 | the email-format rule accepts the empty string (leaving it to the required rule) and otherwise accepts exactly the strings the syntax check accepts, rejecting the rest as "not an email" |
| `Validation.CheckLength` | model/user.go:21 | the length rule accepts the empty string; otherwise it accepts exactly the strings whose character count respects each non-zero bound, rejecting the rest with a length error carrying the bounds |
| `Validation.FirstFailure` | model/user.go:20-21 | the rules of one field are tried in order: no error exactly when every rule passes, otherwise the error of a rule that fails with all earlier rules passing |
| `Validation.ValidateStruct` | model/user.go:19-21 | every field is checked, not only up to the first failure: each field whose rules fail appears in the error map, and each reported error is the first failure of a field of that name that no later same-named field overrides |
| `Users.RequiredIf` | model/user.go:58-66 | the rule rejects a value exactly when the condition holds and the value is empty, and then with the "blank" error; with the condition false it accepts every value |
| `Users.EmailRulesFailure` | model/user.go:20 | the email rules give "blank" on the empty string, "not an email" on a non-empty string the syntax check rejects, and pass otherwise |
| `Users.PasswordRulesFailure` | model/user.go:21 | the password rules give "blank" on an empty password only while no hash is stored, a length error on a present password outside [8, 16], and pass otherwise |
| `Users.Validate` | model/user.go:18-22 | the email fails exactly when it is empty or badly formed, with the matching reason; the password fails exactly when it is empty with no stored hash ("blank") or present with length outside [8, 16] (length error), whatever hash is stored |
| `Users.EncryptMessage` | model/user.go:48-55 | an error from the hashing library is passed on with an empty hash; otherwise the library's hash is returned unchanged |
| `Users.BeforeCreate` | model/user.go:25-35 | an empty plaintext changes nothing and returns no error; a non-empty one whose hashing fails returns that error with the record unchanged; otherwise the stored hash becomes exactly the library's hash; id, email and plaintext never change, and the stored hash is never anything but the old one or a library hash of the plaintext |
| `Users.Sanitize` | model/user.go:38-40 | the plaintext becomes empty and id, email and stored hash are kept |
| `Users.ComparePassword` | model/user.go:43-45 | the check succeeds exactly when the library comparison of stored hash and candidate reports no error, so a mismatch and a malformed hash are both just false |
| `UserProperties.PasswordLengthIgnoresStoredHash` | model/user.go:21 | for a present password, whether the password field fails does not depend on the stored hash |
| `UserProperties.ValidRecordHasCredential` | model/user.go:18-22 | a record that passes validation has a well-formed email and either a stored hash or a plaintext of length 8 to 16 |
| `UserProperties.SanitizeIdempotent` | model/user.go:38-40 | sanitising twice equals sanitising once |
| `UserProperties.SanitizeKeepsCredential` | model/user.go:38-45 | sanitising does not change the result of any credential check |
| `UserProperties.CheckAfterCreate` | model/user.go:25-45 | after a successful `BeforeCreate`, a credential check compares against the fresh hash when a plaintext was given and against the old hash otherwise |
| `UserProperties.FailedCreateKeepsCredential` | model/user.go:25-45 | a failed `BeforeCreate` leaves every credential check as it was |
| `UserProperties.CreateThenSanitizeAcceptsPassword` | model/user.go:25-45 | if every hash the library produces verifies against its plaintext, a record created and then sanitised accepts its original plaintext |
| `UserProperties.ValidatedCreateKeepsHash` | model/user.go:18-40 | a validated record that is hashed without error and then sanitised has no plaintext and a non-empty stored hash, provided the library never returns an empty hash |

## Left out

- bcrypt itself: the algorithm, the random salt, the cost factor and the constant-time comparison are foreign cryptographic code; `generate` and `compare` are uninterpreted parameters. The round trip (a hash verifies against its plaintext) is stated only as the hypothesis of a lemma, and "two hashes of one password differ" is not stated at all, because a deterministic `generate` cannot express it.
- The email syntax of `is.Email` is an uninterpreted parameter `isEmail`; the library's error types, messages and its reflection over struct fields are reduced to a map from field to reason.
- Users.Validate: lengths count the characters of a `seq<char>`, whereas ozzo's `Length` on a Go string counts UTF-8 bytes; the two agree on ASCII passwords and differ on others.
- Users.BeforeCreate: Go's `len(u.Password) > 0` counts bytes; it is positive exactly when the string is non-empty, so the model's emptiness test is the same condition.
- ozzo-validation's handling of nil pointers, values implementing its `Validatable` interface and internal (non-validation) errors is not modelled; the record's fields are plain strings, so none of these paths is taken.
- The JSON tags (`omitempty` on the password, `json:"-"` on the hash) and serialisation belong to `encoding/json` and are not modelled.
- The database mapping, HTTP handlers and persistence are I/O outside this file.
- The record's `Id` is a Go `int`; no operation computes with it, so it is an unbounded `int` that every operation carries unchanged.
