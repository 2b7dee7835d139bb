/** The express-validator chains the route modules declare: each rule checks
    one body field, every rule runs, and the failing fields are reported in
    the order the rules are declared. */
module Validation {
  import opened Base
  import opened Model

  /** One rule applied to one field: whether it passed, and the field's name. */
  datatype Check = Check(passes: bool, field: string)

  /** The fields whose rule failed, in rule order. */
  function Failures(checks: seq<Check>): (errors: seq<string>)
    ensures errors == [] <==> forall i :: 0 <= i < |checks| ==> checks[i].passes
    ensures |errors| <= |checks|
    ensures forall f :: f in errors <==> exists i :: 0 <= i < |checks| && !checks[i].passes && checks[i].field == f
    decreases |checks|
  {
    if |checks| == 0 then []
    else
      var rest := Failures(checks[1..]);
      assert forall i :: 1 <= i < |checks| ==> checks[i] == checks[1..][i - 1];
      if checks[0].passes then rest else [checks[0].field] + rest
  }

  /** `notEmpty()`: an absent field reads as the empty text and fails. */
  predicate NotEmpty(v: Option<string>) {
    v.Some? && v.value != ""
  }

  /** `isEmail()`; an absent field reads as the empty text, which no
      address matches. */
  predicate IsEmail(env: Env, v: Option<string>) {
    v.Some? && env.isEmail(v.value)
  }

  /** `isISO8601()`; an absent field fails like the empty text. */
  predicate IsIso8601(env: Env, v: Option<string>) {
    v.Some? && env.isIso8601(v.value)
  }

  /** `isLength({ min: n })`, counting characters; an absent field has length 0. */
  predicate MinLength(v: Option<string>, n: nat) {
    v.Some? && |v.value| >= n
  }

  /** `optional()` in front of a rule: an absent field skips it. */
  predicate Optional<T>(v: Option<T>, rule: bool) {
    v.None? || rule
  }
}
