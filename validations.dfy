/**
 * Field validators (src/utils/validations.ts). Each returns `Valid` or an
 * `Invalid` result carrying the message shown next to the field.
 */
module Validations {
  import opened Js
  import opened Text

  datatype Validation = Valid | Invalid(error: string)

  /** `validateRequired`: fails on null, undefined, `''` and text that is blank after trimming. */
  function ValidateRequired(value: Value, fieldName: string): (r: Validation)
    requires IsNullableString(value)
    ensures r.Valid? <==> value.Str? && !IsBlank(value.s)
    ensures r.Invalid? ==> r.error == fieldName + " is required"
  {
    if !Truthy(value) || Trim(value.s) == "" then Invalid(fieldName + " is required")
    else Valid
  }

  /** `validateMinLength`: an empty or missing value passes; otherwise the length must reach `minLength`. */
  function ValidateMinLength(value: Value, minLength: int, fieldName: string): (r: Validation)
    requires IsNullableString(value)
    ensures r.Invalid? <==> value.Str? && 0 < |value.s| < minLength
    ensures r.Invalid? ==> r.error == fieldName + " must be at least " + IntToString(minLength) + " characters"
  {
    if !Truthy(value) then Valid
    else if |value.s| < minLength then
      Invalid(fieldName + " must be at least " + IntToString(minLength) + " characters")
    else Valid
  }

  /** `validateMaxLength`: an empty or missing value passes; otherwise the length must not exceed `maxLength`. */
  function ValidateMaxLength(value: Value, maxLength: int, fieldName: string): (r: Validation)
    requires IsNullableString(value)
    ensures r.Invalid? <==> value.Str? && |value.s| > maxLength && |value.s| > 0
    ensures r.Invalid? ==> r.error == fieldName + " must be at most " + IntToString(maxLength) + " characters"
  {
    if !Truthy(value) then Valid
    else if |value.s| > maxLength then
      Invalid(fieldName + " must be at most " + IntToString(maxLength) + " characters")
    else Valid
  }

  /** `validatePositiveNumber`: null and undefined pass, NaN and negatives fail; 0 passes. */
  function ValidatePositiveNumber(value: Value, fieldName: string): (r: Validation)
    requires IsNullableNumber(value)
    ensures r.Valid? <==> IsNullish(value) || (value.Num? && value.n >= 0)
    ensures r.Invalid? ==> r.error == fieldName + " must be a positive number"
  {
    if value.Null? || value.Undef? then Valid
    else if value.NaN? || value.n < 0 then Invalid(fieldName + " must be a positive number")
    else Valid
  }

  /** `validateNumberRange`: null and undefined pass; otherwise `min <= value <= max`, inclusive, and not NaN. */
  function ValidateNumberRange(value: Value, min: int, max: int, fieldName: string): (r: Validation)
    requires IsNullableNumber(value)
    ensures r.Valid? <==> IsNullish(value) || (value.Num? && min <= value.n <= max)
    ensures r.Invalid? ==> r.error == fieldName + " must be between " + IntToString(min) + " and " + IntToString(max)
  {
    if value.Null? || value.Undef? then Valid
    else if value.NaN? || value.n < min || value.n > max then
      Invalid(fieldName + " must be between " + IntToString(min) + " and " + IntToString(max))
    else Valid
  }

  /** `validateMultiple`: the first failing validator's result, or `Valid` when all pass. */
  function ValidateMultiple<T>(value: T, validators: seq<T -> Validation>): (r: Validation)
    ensures r.Valid? <==> forall i :: 0 <= i < |validators| ==> validators[i](value).Valid?
    ensures r.Invalid? ==> exists i :: (0 <= i < |validators| && r == validators[i](value)
      && forall j :: 0 <= j < i ==> validators[j](value).Valid?)
  {
    if validators == [] then Valid
    else
      var result := validators[0](value);
      if result.Invalid? then result
      else
        var rest := ValidateMultiple(value, validators[1..]);
        assert forall i :: 1 <= i < |validators| ==> validators[i] == validators[1..][i - 1];
        if rest.Invalid? then
          var k :| (0 <= k < |validators[1..]| && rest == validators[1..][k](value)
            && forall j :: 0 <= j < k ==> validators[1..][j](value).Valid?);
          assert rest == validators[k + 1](value);
          rest
        else rest
  }

  /** A value inside `[0, max]` also passes the non-negative check. */
  lemma RangeFromZeroIsPositive(value: Value, max: int, fieldName: string, other: string)
    requires IsNullableNumber(value)
    requires ValidateNumberRange(value, 0, max, fieldName).Valid?
    ensures ValidatePositiveNumber(value, other).Valid?
  {
  }

  /** A required, non-blank value that fails a length bound is reported by that bound alone. */
  lemma RequiredThenLength(value: Value, minLength: int, maxLength: int, name: string)
    requires IsNullableString(value) && ValidateRequired(value, name).Valid?
    ensures ValidateMinLength(value, minLength, name).Valid? <==> |value.s| >= minLength
    ensures ValidateMaxLength(value, maxLength, name).Valid? <==> |value.s| <= maxLength
  {
    assert value.s != [] by { assert !IsBlank(value.s); }
  }

  /** Adding validators after a failing prefix does not change the reported failure. */
  lemma {:induction false} MultipleFirstFailureWins<T>(value: T, first: seq<T -> Validation>, more: seq<T -> Validation>)
    requires ValidateMultiple(value, first).Invalid?
    ensures ValidateMultiple(value, first + more) == ValidateMultiple(value, first)
  {
    var all := first + more;
    assert all[0] == first[0];
    if first[0](value).Valid? {
      assert all[1..] == first[1..] + more;
      MultipleFirstFailureWins(value, first[1..], more);
    }
  }

  /** Two validators in sequence: the first one's failure, else the second's result. */
  lemma MultipleOfTwo<T>(value: T, a: T -> Validation, b: T -> Validation)
    ensures ValidateMultiple(value, [a, b]) == if a(value).Invalid? then a(value) else b(value)
  {
    assert [a, b][1..] == [b];
    assert [b][1..] == [];
  }
}
