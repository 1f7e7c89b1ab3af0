/** The part of the ozzo-validation library that the user model relies on:
    three built-in rules, custom rules given as functions, the per-value
    check that stops at the first failing rule, and the per-struct check
    that collects one error per failing field. */
module Validation {
  import opened Wrappers

  /** Why a value was rejected. */
  datatype Reason = Blank | NotEmail | BadLength(min: nat, max: nat)

  /** A validation rule. `By` wraps a custom rule function (ozzo's `RuleFunc`).
      A length bound of 0 is read as "no bound on that side" (a modelling
      assumption; the record only uses `Length(8, 16)`). */
  datatype Rule =
    | Required
    | EmailFormat
    | Length(min: nat, max: nat)
    | By(check: string -> Option<Reason>)

  /** `validation.Required`: a string is blank exactly when it is empty. */
  function CheckRequired(v: string): Option<Reason>
  {
    if v == "" then Some(Blank) else None
  }

  /** `is.Email`: the empty string is left to `Required`; any other value must
      satisfy the (uninterpreted) email-syntax predicate. */
  function CheckEmail(v: string, isEmail: string -> bool): (r: Option<Reason>)
    ensures r.None? <==> v == "" || isEmail(v)
    ensures r.Some? ==> r == Some(NotEmail)
  {
    if v == "" || isEmail(v) then None else Some(NotEmail)
  }

  /** `validation.Length(min, max)`: the empty string is accepted; otherwise
      the number of characters must respect every bound that is not 0. */
  function CheckLength(v: string, min: nat, max: nat): (r: Option<Reason>)
    ensures r.None? <==> v == "" || ((min == 0 || min <= |v|) && (max == 0 || |v| <= max))
    ensures r.Some? ==> r == Some(BadLength(min, max))
  {
    if v == "" then None
    else if (min > 0 && |v| < min) || (max > 0 && |v| > max) then Some(BadLength(min, max))
    else None
  }

  function Check(rule: Rule, v: string, isEmail: string -> bool): Option<Reason>
  {
    match rule
    case Required => CheckRequired(v)
    case EmailFormat => CheckEmail(v, isEmail)
    case Length(min, max) => CheckLength(v, min, max)
    case By(check) => check(v)
  }

  /** `validation.Validate(value, rules...)`: the rules are tried in order and
      the first failure is reported. */
  function FirstFailure(rules: seq<Rule>, v: string, isEmail: string -> bool): (r: Option<Reason>)
    ensures r.None? <==> forall i | 0 <= i < |rules| :: Check(rules[i], v, isEmail).None?
    ensures r.Some? ==>
      exists i | 0 <= i < |rules| ::
        && Check(rules[i], v, isEmail) == r
        && forall j | 0 <= j < i :: Check(rules[j], v, isEmail).None?
  {
    if rules == [] then None
    else
      var first := Check(rules[0], v, isEmail);
      if first.Some? then first else FirstFailure(rules[1..], v, isEmail)
  }

  /** One `validation.Field(&value, rules...)` entry of a struct check. */
  datatype FieldRules<F> = FieldRules(name: F, value: string, rules: seq<Rule>)

  function FieldError<F>(field: FieldRules<F>, isEmail: string -> bool): Option<Reason>
  {
    FirstFailure(field.rules, field.value, isEmail)
  }

  /** Entry `k` fails, and no later entry with the same name fails: its error
      is the one the struct check keeps for that name. */
  ghost predicate IsLastFailure<F>(fields: seq<FieldRules<F>>, k: int, isEmail: string -> bool)
  {
    && 0 <= k < |fields|
    && FieldError(fields[k], isEmail).Some?
    && forall j | k < j < |fields| :: fields[j].name == fields[k].name ==> FieldError(fields[j], isEmail).None?
  }

  /** A last failure of a prefix stays a last failure when the entry appended
      after it passes or carries another name. */
  lemma LastFailureExtends<F>(fields: seq<FieldRules<F>>, k: int, isEmail: string -> bool)
    requires |fields| > 0
    requires IsLastFailure(fields[..|fields| - 1], k, isEmail)
    requires fields[|fields| - 1].name != fields[k].name || FieldError(fields[|fields| - 1], isEmail).None?
    ensures IsLastFailure(fields, k, isEmail)
  {
  }

  /** Every failing entry has its name in `errs`. */
  ghost predicate ReportsEveryFailure<F>(fields: seq<FieldRules<F>>, errs: map<F, Reason>, isEmail: string -> bool)
  {
    forall k | 0 <= k < |fields| && FieldError(fields[k], isEmail).Some? :: fields[k].name in errs
  }

  /** Every error in `errs` is the error of the last failing entry of that name. */
  ghost predicate ReportsLastFailures<F>(fields: seq<FieldRules<F>>, errs: map<F, Reason>, isEmail: string -> bool)
  {
    forall f | f in errs ::
      exists k :: IsLastFailure(fields, k, isEmail) && fields[k].name == f && FieldError(fields[k], isEmail) == Some(errs[f])
  }

  /** Recording the outcome of one more entry keeps both properties. */
  lemma RecordKeepsReports<F>(fields: seq<FieldRules<F>>, errs: map<F, Reason>, isEmail: string -> bool)
    requires |fields| > 0
    requires ReportsEveryFailure(fields[..|fields| - 1], errs, isEmail)
    requires ReportsLastFailures(fields[..|fields| - 1], errs, isEmail)
    ensures var last := fields[|fields| - 1];
      var r := match FieldError(last, isEmail) case Some(e) => errs[last.name := e] case None => errs;
      ReportsEveryFailure(fields, r, isEmail) && ReportsLastFailures(fields, r, isEmail)
  {
    var n := |fields|;
    var prefix := fields[..n - 1];
    var last := fields[n - 1];
    var r := match FieldError(last, isEmail) case Some(e) => errs[last.name := e] case None => errs;
    forall k | 0 <= k < n && FieldError(fields[k], isEmail).Some?
      ensures fields[k].name in r
    {
      if k < n - 1 {
        assert prefix[k] == fields[k];
      }
    }
    forall f | f in r
      ensures exists k :: IsLastFailure(fields, k, isEmail) && fields[k].name == f && FieldError(fields[k], isEmail) == Some(r[f])
    {
      if FieldError(last, isEmail).Some? && f == last.name {
        assert IsLastFailure(fields, n - 1, isEmail);
      } else {
        var k :| IsLastFailure(prefix, k, isEmail) && prefix[k].name == f && FieldError(prefix[k], isEmail) == Some(errs[f]);
        LastFailureExtends(fields, k, isEmail);
      }
    }
  }

  /** `validation.ValidateStruct`: every field is checked (not only up to the
      first failure) and each failing field contributes its first error under
      its name; when two entries share a name, the later failure wins. The
      empty map stands for a nil error. */
  function ValidateStruct<F(==)>(fields: seq<FieldRules<F>>, isEmail: string -> bool): (errs: map<F, Reason>)
    ensures ReportsEveryFailure(fields, errs, isEmail)
    ensures ReportsLastFailures(fields, errs, isEmail)
  {
    if fields == [] then map[]
    else
      var errs := ValidateStruct(fields[..|fields| - 1], isEmail);
      RecordKeepsReports(fields, errs, isEmail);
      var last := fields[|fields| - 1];
      match FieldError(last, isEmail)
      case Some(e) => errs[last.name := e]
      case None => errs
  }
}
