/**
 * Pieces the four form hooks share: the field-error update after a validation,
 * the abstract results of the auth and repository calls, and the request a
 * submit sends.
 */
module FormCommon {
  import opened Wrappers
  import opened Js
  import opened Validations
  import opened FormHelpers

  /** The message stored for a failed field: `validation.error || 'Invalid value'`. */
  function ErrorText(v: Validation): string
    requires v.Invalid?
  {
    if v.error == "" then "Invalid value" else v.error
  }

  /**
   * The `setFieldErrors` update at the end of `validateField`: a valid field
   * loses its entry, an invalid one gains or overwrites it.
   */
  function ErrorsAfter(errors: map<string, string>, name: string, v: Validation): (r: map<string, string>)
    ensures v.Valid? ==> name !in r
    ensures v.Invalid? ==> name in r && r[name] == ErrorText(v) && r[name] != ""
    ensures forall k :: k != name ==> (k in r <==> k in errors)
    ensures forall k :: k != name && k in r ==> r[k] == errors[k]
  {
    if v.Valid? then RemoveFieldError(errors, name) else errors[name := ErrorText(v)]
  }

  /** Validating the same field twice with the same result is the same as once. */
  lemma ErrorsAfterIdempotent(errors: map<string, string>, name: string, v: Validation)
    ensures ErrorsAfter(ErrorsAfter(errors, name, v), name, v) == ErrorsAfter(errors, name, v)
  {
  }

  /** The error map after validating `names` in order with the given results. */
  function ErrorsAfterAll(errors: map<string, string>, names: seq<string>, results: seq<Validation>): map<string, string>
    requires |names| == |results|
    decreases |names|
  {
    if names == [] then errors
    else
      var n := |names| - 1;
      ErrorsAfter(ErrorsAfterAll(errors, names[..n], results[..n]), names[n], results[n])
  }

  /** With distinct names, each validated field ends with an entry exactly when it failed; others are untouched. */
  lemma ErrorsAfterAllEntries(errors: map<string, string>, names: seq<string>, results: seq<Validation>)
    requires |names| == |results|
    requires forall i, j :: 0 <= i < j < |names| ==> names[i] != names[j]
    ensures forall i :: 0 <= i < |names| ==>
      (names[i] in ErrorsAfterAll(errors, names, results) <==> results[i].Invalid?)
    ensures forall i :: 0 <= i < |names| && results[i].Invalid? ==>
      ErrorsAfterAll(errors, names, results)[names[i]] == ErrorText(results[i])
    ensures forall k :: k !in names ==>
      (k in ErrorsAfterAll(errors, names, results) <==> k in errors)
      && (k in errors ==> ErrorsAfterAll(errors, names, results)[k] == errors[k])
  {
    ErrorsAfterAllListed(errors, names, results);
    ErrorsAfterAllUnlisted(errors, names, results);
  }

  /** Each validated field of distinct names ends with an entry exactly when its last validation failed. */
  lemma {:induction false} ErrorsAfterAllListed(errors: map<string, string>, names: seq<string>, results: seq<Validation>)
    requires |names| == |results|
    requires forall i, j :: 0 <= i < j < |names| ==> names[i] != names[j]
    ensures forall i :: 0 <= i < |names| ==>
      (names[i] in ErrorsAfterAll(errors, names, results) <==> results[i].Invalid?)
    ensures forall i :: 0 <= i < |names| && results[i].Invalid? ==>
      ErrorsAfterAll(errors, names, results)[names[i]] == ErrorText(results[i])
    decreases |names|
  {
    if names != [] {
      var n := |names| - 1;
      var before := ErrorsAfterAll(errors, names[..n], results[..n]);
      ErrorsAfterAllListed(errors, names[..n], results[..n]);
      assert ErrorsAfterAll(errors, names, results) == ErrorsAfter(before, names[n], results[n]);
      forall i | 0 <= i < n ensures names[i] == names[..n][i] && results[i] == results[..n][i] && names[i] != names[n] {
      }
    }
  }

  /** A key not validated keeps its entry, or its absence. */
  lemma {:induction false} ErrorsAfterAllUnlisted(errors: map<string, string>, names: seq<string>, results: seq<Validation>)
    requires |names| == |results|
    ensures forall k :: k !in names ==>
      (k in ErrorsAfterAll(errors, names, results) <==> k in errors)
      && (k in errors ==> ErrorsAfterAll(errors, names, results)[k] == errors[k])
    decreases |names|
  {
    if names != [] {
      var n := |names| - 1;
      ErrorsAfterAllUnlisted(errors, names[..n], results[..n]);
      assert forall k :: k in names[..n] ==> k in names;
    }
  }

  /** `ErrorsAfterAll` over one more field is one more `ErrorsAfter` at the end. */
  lemma ErrorsAfterAllSnoc(errors: map<string, string>, names: seq<string>, results: seq<Validation>,
                           name: string, v: Validation)
    requires |names| == |results|
    ensures ErrorsAfterAll(errors, names + [name], results + [v]) == ErrorsAfter(ErrorsAfterAll(errors, names, results), name, v)
  {
    assert (names + [name])[..|names|] == names;
    assert (results + [v])[..|results|] == results;
  }

  /** Whether no validation in `results` failed: the `isValid` flag of a submit loop. */
  predicate AllPass(results: seq<Validation>)
    decreases |results|
  {
    results == [] || (results[|results| - 1].Valid? && AllPass(results[..|results| - 1]))
  }

  /** `AllPass` holds exactly when every result is valid. */
  lemma {:induction false} AllPassMeans(results: seq<Validation>)
    ensures AllPass(results) <==> forall i :: 0 <= i < |results| ==> results[i].Valid?
    decreases |results|
  {
    if results != [] {
      var init := results[..|results| - 1];
      AllPassMeans(init);
      assert forall i :: 0 <= i < |init| ==> init[i] == results[i];
    }
  }

  /** Extending the checked prefix by one result keeps `AllPass` exactly when that result is valid. */
  lemma AllPassSnoc(results: seq<Validation>, i: int)
    requires 0 <= i < |results|
    ensures AllPass(results[..i + 1]) <==> AllPass(results[..i]) && results[i].Valid?
  {
    assert results[..i + 1][..i] == results[..i];
  }

  /** What `supabase.auth.getUser()` answers: a user id, or no user (or an error). */
  datatype AuthResult = Authenticated(userId: string) | NoUser

  /**
   * What the repository call ends with: `data` present or not, or a thrown
   * error, with its message when it is an `Error` instance.
   */
  datatype SaveResult = Saved(hasData: bool) | Failed(message: Option<string>)

  /** The repository call a submit makes, with the payload it sends. */
  datatype Request<P> = NoRequest | Insert(payload: P) | Update(id: Value, payload: P)

  /** How a submit ended. */
  datatype Outcome = Blocked | Rejected(message: string) | Succeeded | NoData

  /** The `catch` branch: an `Error`'s message, or the hook's fallback text. */
  function FailureMessage(message: Option<string>, fallback: string): (r: string)
    ensures message.Some? ==> r == message.value
    ensures message.None? ==> r == fallback
  {
    message.GetOr(fallback)
  }

  /** `x ?? d`. */
  function Coalesce(v: Value, d: Value): (r: Value)
    ensures IsNullish(v) ==> r == d
    ensures !IsNullish(v) ==> r == v
  {
    if v.Null? || v.Undef? then d else v
  }

  /** `value !== null && value !== undefined`, as an optional value. */
  function Present(v: Value): (r: Option<Value>)
    ensures r.Some? <==> !IsNullish(v)
    ensures r.Some? ==> r.value == v
  {
    if IsNullish(v) then None else Some(v)
  }

  /** How a submit that reached the repository ends: the `catch` message, `onSuccess`, or nothing when no row came back. */
  function SaveOutcome(save: SaveResult, fallback: string): (r: Outcome)
    ensures r.Rejected? <==> save.Failed?
    ensures r.Rejected? ==> r.message == FailureMessage(save.message, fallback)
    ensures r.Succeeded? <==> save == Saved(true)
    ensures r.NoData? <==> save == Saved(false)
  {
    match save
    case Saved(hasData) => if hasData then Succeeded else NoData
    case Failed(message) => Rejected(FailureMessage(message, fallback))
  }

  /** The banner `error` a finished submit leaves behind. */
  function ErrorOf(outcome: Outcome): (r: Option<string>)
    ensures r.Some? <==> outcome.Rejected?
    ensures r.Some? ==> r.value == outcome.message
  {
    if outcome.Rejected? then Some(outcome.message) else None
  }

  /** A form field holding `string | null`. */
  predicate StringOrNull(v: Value) {
    v.Str? || v.Null?
  }

  /** A form field holding `number | null` (never NaN: number inputs turn NaN into null). */
  predicate NumberOrNull(v: Value) {
    v.Num? || v.Null?
  }

  /** A row column typed `T | null`, possibly absent from the object. */
  predicate NullableColumn(v: Value, isString: bool) {
    IsNullish(v) || (isString && v.Str?) || (!isString && v.Num?)
  }
}
