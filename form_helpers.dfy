/**
 * Input normalisation and optional-field cleaning shared by the form hooks
 * (src/utils/formHelpers.ts).
 */
module FormHelpers {
  import opened Wrappers
  import opened Js
  import opened Text

  /**
   * The form element a change event comes from: an `<input>` of some `type`
   * (with the names of its selected files), a `<select>` or a `<textarea>`.
   */
  datatype Element =
    | Input(inputType: string, value: string, fileNames: seq<string>)
    | SelectBox(value: string)
    | TextArea(value: string)

  /** `normalizeInputValue`: the value a change event stores, by element kind. */
  function NormalizeInputValue(e: Element): (r: Value)
    ensures r.Null? || r.Num? || r.Str?
    ensures e.Input? && e.inputType == "number" ==>
      (r.Null? <==> e.value == "" || StringToNumber(e.value).NaN?)
      && (!r.Null? ==> r == StringToNumber(e.value))
    ensures e.Input? && e.inputType == "file" ==>
      r == (if e.fileNames == [] then Null else Str(e.fileNames[0]))
    ensures e.Input? && e.inputType != "number" && e.inputType != "file" ==> r == Str(e.value)
    ensures e.SelectBox? ==> (r.Null? <==> e.value == "") && (!r.Null? ==> r == Str(e.value))
    ensures e.TextArea? ==> (r.Null? <==> IsBlank(e.value)) && (!r.Null? ==> r == Str(Trim(e.value)))
  {
    match e
    case Input(inputType, value, fileNames) =>
      if inputType == "number" then
        var num := StringToNumber(value);
        if value == "" || num.NaN? then Null else num
      else if inputType == "file" then
        if fileNames == [] then Null else Str(fileNames[0])
      else Str(value)
    case SelectBox(value) => if value == "" then Null else Str(value)
    case TextArea(value) =>
      var trimmed := Trim(value);
      if trimmed == "" then Null else Str(trimmed)
  }

  /** A number typed as a decimal integer comes back as that integer. */
  lemma NumberInputRoundTrip(n: int)
    ensures NormalizeInputValue(Input("number", IntToString(n), [])) == Num(n)
  {
    StringToNumberOfIntToString(n);
    IntToStringShape(n);
  }

  /** A normalised textarea value is a fixed point: normalising it again gives the same value. */
  lemma TextAreaNormalisedIsStable(value: string)
    requires NormalizeInputValue(TextArea(value)).Str?
    ensures NormalizeInputValue(TextArea(NormalizeInputValue(TextArea(value)).s)) == NormalizeInputValue(TextArea(value))
  {
    TrimIdempotent(value);
  }

  /** `cleanOptionalField`: the trimmed string, or `None` for non-strings and blank strings. */
  function CleanOptionalField(value: Value): (r: Option<string>)
    ensures r.None? <==> !value.Str? || IsBlank(value.s)
    ensures r.Some? ==> r.value == Trim(value.s) && r.value != ""
  {
    if !Truthy(value) || !value.Str? then None
    else
      var trimmed := Trim(value.s);
      if trimmed == "" then None else Some(trimmed)
  }

  /** Cleaning never yields `''`, and cleaning a cleaned value changes nothing. */
  lemma CleanOptionalFieldIdempotent(value: Value)
    ensures CleanOptionalField(value) != Some("")
    ensures CleanOptionalField(value).Some? ==>
      CleanOptionalField(Str(CleanOptionalField(value).value)) == CleanOptionalField(value)
  {
    if CleanOptionalField(value).Some? {
      TrimIdempotent(value.s);
      var t := Trim(value.s);
      assert !IsBlank(t) by { assert !IsSpace(t[0]); }
    }
  }

  /**
   * `validateWordCount`: null, undefined, NaN and unparsable strings give `None`;
   * a number (integers here) or a string parsed by `parseInt(s, 10)` is clamped at 0.
   */
  function ValidateWordCount(value: Value): (r: Option<int>)
    ensures r.Some? ==> r.value >= 0
    ensures IsNullish(value) || value.NaN? || value.Bool? ==> r.None?
    ensures value.Num? ==> r == Some(if value.n < 0 then 0 else value.n)
    ensures value.Str? ==> (r.None? <==> ParseInt(value.s).NaN?)
    ensures value.Str? && ParseInt(value.s).Num? ==>
      r == Some(if ParseInt(value.s).n < 0 then 0 else ParseInt(value.s).n)
  {
    match value
    case Num(n) => Some(if n < 0 then 0 else n)
    case Str(s) =>
      (match ParseInt(s)
       case Num(p) => Some(if p < 0 then 0 else p)
       case _ => None)
    case _ => None
  }

  /** A count entered as text is read back as itself, or 0 when negative. */
  lemma ValidateWordCountOfText(n: int)
    ensures ValidateWordCount(Str(IntToString(n))) == Some(if n < 0 then 0 else n)
  {
    ParseIntOfIntToString(n);
  }

  /** Feeding a validated count back in returns it unchanged. */
  lemma ValidateWordCountIdempotent(value: Value)
    requires ValidateWordCount(value).Some?
    ensures ValidateWordCount(Num(ValidateWordCount(value).value)) == ValidateWordCount(value)
  {
  }

  /** `validateWordCountWithDefault`: the validated count, or 0 when there is none. */
  function ValidateWordCountWithDefault(value: Value): (r: int)
    ensures r >= 0
    ensures ValidateWordCount(value).Some? ==> r == ValidateWordCount(value).value
    ensures ValidateWordCount(value).None? ==> r == 0
  {
    ValidateWordCount(value).GetOr(0)
  }

  /** `removeFieldError`: the error map without `fieldName`, every other entry kept. */
  function RemoveFieldError(errors: map<string, string>, fieldName: string): (r: map<string, string>)
    ensures fieldName !in r
    ensures forall k :: k in r <==> k in errors && k != fieldName
    ensures forall k :: k in r ==> r[k] == errors[k]
  {
    map k | k in errors && k != fieldName :: errors[k]
  }

  /** Removing an error twice is the same as removing it once. */
  lemma RemoveFieldErrorIdempotent(errors: map<string, string>, fieldName: string)
    ensures RemoveFieldError(RemoveFieldError(errors, fieldName), fieldName) == RemoveFieldError(errors, fieldName)
  {
  }
}
