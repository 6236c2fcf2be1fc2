/**
 * The character editor's state (src/components/characters/hooks/useCharacterForm.ts):
 * the form data, per-field errors, touched set, submit flag and banner error,
 * with the handlers that update them. The auth lookup and the repository call
 * are inputs to `Submit`.
 */
module CharacterFormHook {
  import opened Wrappers
  import opened Js
  import opened Text
  import opened Validations
  import opened FormHelpers
  import opened FormCommon

  /**
   * The names of the free-text attributes besides the biography and the role,
   * in the order `handleSubmit` cleans them: each is optional and sent only
   * when it has text.
   */
  const Details: seq<string> := [
    "flaw", "external_motivation", "internal_motivation", "positive_traits",
    "negative_traits", "quirks_mannerisms", "fears_phobias", "motto", "birth", "height", "weight",
    "build", "hair_color", "hair_style", "eye_color", "eye_shape", "picture", "occupation",
    "relationship_status", "personality_type", "scars"]

  /** The details the editor renders as a `textarea`; the picture is a file input, the rest text inputs. */
  const TextAreas: set<string> := {
    "quirks_mannerisms", "external_motivation", "internal_motivation", "flaw", "fears_phobias"}

  /** The character editor's fields, each known by its `name` attribute. */
  datatype Field = Name | Age | Biography | Role | IdManuscript | DateCreated | Detail(key: string)
  {
    function Key(): string {
      match this
      case Name => "name"
      case Age => "age"
      case Biography => "biography"
      case Role => "role"
      case IdManuscript => "id_manuscript"
      case DateCreated => "date_created"
      case Detail(key) => key
    }
  }

  /** The fields `handleSubmit` validates, in order. */
  const Fields: seq<Field> := [Name, Age, Biography]

  /** The names of `fields`. */
  function Keys(fields: seq<Field>): (r: seq<string>)
    ensures |r| == |fields| && forall i :: 0 <= i < |fields| ==> r[i] == fields[i].Key()
  {
    seq(|fields|, i requires 0 <= i < |fields| => fields[i].Key())
  }

  /** A `characters` row as the database types it. */
  predicate RowTyped(row: Record) {
    && Js.Get(row, "name").Str?
    && Js.Get(row, "id_character").Num?
    && NullableColumn(Js.Get(row, "age"), false)
    && NullableColumn(Js.Get(row, "id_manuscript"), false)
    && NullableColumn(Js.Get(row, "date_created"), true)
    && NullableColumn(Js.Get(row, "biography"), true)
    && NullableColumn(Js.Get(row, "role"), true)
    && forall a :: a in Details ==> NullableColumn(Js.Get(row, a), true)
  }

  /** `formData[key]` for a detail: `undefined` when the object has no such key. */
  function DetailValue(details: map<string, Value>, key: string): Value {
    if key in details then details[key] else Undef
  }

  /** The editor's form data: a character without its id; `details` holds the other 21 free-text fields. */
  datatype CharacterData = CharacterData(
    name: Value, age: Value, biography: Value, role: Value, idManuscript: Value, dateCreated: Value,
    details: map<string, Value>)
  {
    /** `formData[name]`. */
    function Get(f: Field): Value {
      match f
      case Name => name
      case Age => age
      case Biography => biography
      case Role => role
      case IdManuscript => idManuscript
      case DateCreated => dateCreated
      case Detail(key) => DetailValue(details, key)
    }

    /** `{ ...prev, [name]: value }`. */
    function With(f: Field, value: Value): (d: CharacterData)
      ensures d.Get(f) == value
      ensures forall g :: g != f ==> d.Get(g) == Get(g)
    {
      match f
      case Name => this.(name := value)
      case Age => this.(age := value)
      case Biography => this.(biography := value)
      case Role => this.(role := value)
      case IdManuscript => this.(idManuscript := value)
      case DateCreated => this.(dateCreated := value)
      case Detail(key) => this.(details := details[key := value])
    }
  }

  /** What the form's fields can hold: the details as strings or `null`. */
  predicate Typed(d: CharacterData) {
    && d.name.Str?
    && NumberOrNull(d.age)
    && (NumberOrNull(d.idManuscript) || d.idManuscript.Str?)
    && StringOrNull(d.dateCreated)
    && StringOrNull(d.biography)
    && StringOrNull(d.role)
    && (forall a :: a in d.details ==> StringOrNull(d.details[a]))
  }

  /** The element each field is rendered with in the character editor; the creation date has none. */
  predicate RenderedAs(f: Field, e: Element) {
    match e
    case Input(inputType, _, _) =>
      || ((f == Name || f == Role || (f.Detail? && f.key in Details && f.key !in TextAreas && f.key != "picture")) && inputType == "text")
      || (f == Age && inputType == "number")
      || (f == Detail("picture") && inputType == "file")
    case SelectBox(_) => f == IdManuscript
    case TextArea(_) => f == Biography || (f.Detail? && f.key in TextAreas)
  }

  /** Storing what a rendered element yields keeps the form typed. */
  lemma InputKeepsTyped(d: CharacterData, f: Field, e: Element)
    requires Typed(d) && RenderedAs(f, e)
    ensures Typed(d.With(f, NormalizeInputValue(e)))
  {
  }

  /** Every attribute of the row's detail list, `null` when the row lacks it. */
  function RowDetails(row: Record): (details: map<string, Value>)
    requires RowTyped(row)
    ensures forall a :: a in details <==> a in Details
    ensures forall a :: a in details ==> StringOrNull(details[a])
  {
    map a | a in Details :: Coalesce(Js.Get(row, a), Null)
  }

  /**
   * The initial form data: the row's values (`null` for a missing one, the
   * current time for a missing creation date), or `''`, the current time and
   * `null` for a new character. The row's name is a string, so `?? ''` keeps it.
   */
  function InitialData(initialData: Option<Record>, now: string): (d: CharacterData)
    requires initialData.Some? ==> RowTyped(initialData.value)
    ensures Typed(d)
    ensures initialData.None? ==>
      && d.name == Str("") && d.age.Null? && d.biography.Null? && d.role.Null?
      && d.idManuscript.Null? && d.dateCreated == Str(now)
      && forall a :: a in d.details ==> d.details[a].Null?
  {
    if initialData.None? then
      CharacterData(Str(""), Null, Null, Null, Null, Str(now), map a | a in Details :: Null)
    else
      var row := initialData.value;
      var details := RowDetails(row);
      CharacterData(
        name := Js.Get(row, "name"),
        age := Coalesce(Js.Get(row, "age"), Null),
        biography := Coalesce(Js.Get(row, "biography"), Null),
        role := Coalesce(Js.Get(row, "role"), Null),
        idManuscript := Coalesce(Js.Get(row, "id_manuscript"), Null),
        dateCreated := Coalesce(Js.Get(row, "date_created"), Str(now)),
        details := details)
  }

  /** The values each validated field may be checked with. */
  predicate RuleApplies(f: Field, value: Value) {
    && (f == Name || f == Biography ==> IsNullableString(value))
    && (f == Age ==> IsNullableNumber(value))
  }

  /**
   * `validateField`: the name through `validateRequired`, `validateMinLength`
   * (2) and `validateMaxLength` (100); an age present through
   * `validateNumberRange` (0 to 150); a non-empty biography through
   * `validateMaxLength` (10000); every other field is valid.
   */
  function Rule(f: Field, value: Value): Validation
    requires RuleApplies(f, value)
  {
    match f
    case Name =>
      var required := ValidateRequired(value, "Name");
      var minimum := if required.Valid? then ValidateMinLength(value, 2, "Name") else required;
      if minimum.Valid? then ValidateMaxLength(value, 100, "Name") else minimum
    case Age => if !IsNullish(value) then ValidateNumberRange(value, 0, 150, "Age") else Valid
    case Biography => if Truthy(value) then ValidateMaxLength(value, 10000, "Biography") else Valid
    case _ => Valid
  }

  /** What each rule accepts; a failure always carries a message. */
  lemma RuleMeans(f: Field, value: Value)
    requires RuleApplies(f, value)
    ensures f == Name ==> (Rule(f, value).Valid? <==> value.Str? && !IsBlank(value.s) && 2 <= |value.s| <= 100)
    ensures f == Age ==> (Rule(f, value).Valid? <==> IsNullish(value) || (value.Num? && 0 <= value.n <= 150))
    ensures f == Biography ==> (Rule(f, value).Valid? <==> !value.Str? || |value.s| <= 10000)
    ensures f !in Fields ==> Rule(f, value).Valid?
    ensures Rule(f, value).Invalid? ==> Rule(f, value).error != ""
  {
    if f == Name && value.Str? && !IsBlank(value.s) {
      RequiredThenLength(value, 2, 100, "Name");
    }
  }

  /** The validation results of the submit loop. */
  function Results(d: CharacterData): (r: seq<Validation>)
    requires Typed(d)
    ensures |r| == |Fields|
  {
    [Rule(Name, d.name), Rule(Age, d.age), Rule(Biography, d.biography)]
  }

  /** The submit loop's `i`-th step validates `formData[fieldsToValidate[i]]`. */
  lemma ResultAt(d: CharacterData, i: int)
    requires Typed(d) && 0 <= i < |Fields|
    ensures RuleApplies(Fields[i], d.Get(Fields[i]))
    ensures Results(d)[i] == Rule(Fields[i], d.Get(Fields[i]))
  {
  }

  /** The names of the validated fields are distinct. */
  lemma FieldKeysDistinct()
    ensures forall i, j :: 0 <= i < j < |Fields| ==> Keys(Fields)[i] != Keys(Fields)[j]
  {
    assert Keys(Fields) == ["name", "age", "biography"];
  }

  /** One step of the submit loop extends the error-map fold by the `i`-th field. */
  lemma ValidationStep(errors: map<string, string>, d: CharacterData, i: int)
    requires Typed(d) && 0 <= i < |Fields|
    ensures ErrorsAfterAll(errors, Keys(Fields)[..i + 1], Results(d)[..i + 1])
      == ErrorsAfter(ErrorsAfterAll(errors, Keys(Fields)[..i], Results(d)[..i]), Fields[i].Key(), Results(d)[i])
  {
    assert Keys(Fields)[..i + 1] == Keys(Fields)[..i] + [Fields[i].Key()];
    assert Results(d)[..i + 1] == Results(d)[..i] + [Results(d)[i]];
    ErrorsAfterAllSnoc(errors, Keys(Fields)[..i], Results(d)[..i], Fields[i].Key(), Results(d)[i]);
  }

  /** After the whole submit loop, exactly the failing fields have an error. */
  lemma SubmitLoopDone(errors: map<string, string>, d: CharacterData)
    requires Typed(d)
    ensures Keys(Fields)[..|Fields|] == Keys(Fields) && Results(d)[..|Fields|] == Results(d)
    ensures forall i :: 0 <= i < |Fields| ==>
      (Fields[i].Key() in ErrorsAfterAll(errors, Keys(Fields), Results(d)) <==> Results(d)[i].Invalid?)
  {
    FieldKeysDistinct();
    ErrorsAfterAllEntries(errors, Keys(Fields), Results(d));
  }

  /** Whether every validated field passes. */
  predicate Submittable(d: CharacterData)
    requires Typed(d)
  {
    AllPass(Results(d))
  }

  /** What each validation result of the submit loop says about its field. */
  lemma ResultsMean(d: CharacterData)
    requires Typed(d)
    ensures Results(d)[0].Valid? <==> !IsBlank(d.name.s) && 2 <= |d.name.s| <= 100
    ensures Results(d)[1].Valid? <==> d.age.Null? || 0 <= d.age.n <= 150
    ensures Results(d)[2].Valid? <==> !d.biography.Str? || |d.biography.s| <= 10000
  {
    assert Results(d) == [Rule(Name, d.name), Rule(Age, d.age), Rule(Biography, d.biography)];
    RuleMeans(Name, d.name);
    RuleMeans(Age, d.age);
    RuleMeans(Biography, d.biography);
  }

  /** A character can be submitted exactly when its name, age and biography meet their rules. */
  lemma SubmittableMeans(d: CharacterData)
    requires Typed(d)
    ensures Submittable(d) <==>
      && !IsBlank(d.name.s) && 2 <= |d.name.s| <= 100
      && (d.age.Null? || 0 <= d.age.n <= 150)
      && (!d.biography.Str? || |d.biography.s| <= 10000)
  {
    ResultsMean(d);
    AllPassMeans(Results(d));
    assert Submittable(d) <==> Results(d)[0].Valid? && Results(d)[1].Valid? && Results(d)[2].Valid?;
  }

  /** `hasUnsavedChanges`: a name, biography, role or age on a new character, or any tracked field differing from the row. */
  function Unsaved(d: CharacterData, initial: Option<Record>): bool
    requires d.name.Str?
  {
    if initial.None? then
      || Trim(d.name.s) != ""
      || !StrictEquals(d.biography, Null)
      || !StrictEquals(d.role, Null)
      || !StrictEquals(d.age, Null)
    else
      var row := initial.value;
      || !StrictEquals(d.name, Js.Get(row, "name"))
      || !StrictEquals(d.biography, Coalesce(Js.Get(row, "biography"), Null))
      || !StrictEquals(d.role, Coalesce(Js.Get(row, "role"), Null))
      || !StrictEquals(d.age, Coalesce(Js.Get(row, "age"), Null))
      || !StrictEquals(d.idManuscript, Coalesce(Js.Get(row, "id_manuscript"), Null))
  }

  /** A freshly opened editor, new or editing a row, has no unsaved changes. */
  lemma FreshFormIsSaved(initialData: Option<Record>, now: string)
    requires initialData.Some? ==> RowTyped(initialData.value)
    ensures !Unsaved(InitialData(initialData, now), initialData)
  {
    if initialData.None? {
      FreshNewFormIsSaved(now);
    } else {
      FreshEditFormIsSaved(initialData.value, now);
    }
  }

  lemma FreshNewFormIsSaved(now: string)
    ensures !Unsaved(InitialData(None, now), None)
  {
    var d := InitialData(None, now);
    assert d.name == Str("") && d.biography.Null? && d.role.Null? && d.age.Null?;
    assert Trim("") == "";
  }

  lemma FreshEditFormIsSaved(row: Record, now: string)
    requires RowTyped(row)
    ensures !Unsaved(InitialData(Some(row), now), Some(row))
  {
    var d := InitialData(Some(row), now);
    assert d.name == Js.Get(row, "name") && d.name.Str?;
    assert d.biography == Coalesce(Js.Get(row, "biography"), Null) && !d.biography.NaN?;
    assert d.role == Coalesce(Js.Get(row, "role"), Null) && !d.role.NaN?;
    assert d.age == Coalesce(Js.Get(row, "age"), Null) && !d.age.NaN?;
    assert d.idManuscript == Coalesce(Js.Get(row, "id_manuscript"), Null) && !d.idManuscript.NaN?;
  }

  /**
   * On a new character only the name, biography, role and age are watched:
   * filling in any other detail is not an unsaved change.
   */
  lemma NewCharacterDetailIsNoChange(now: string, a: string, e: Element)
    requires RenderedAs(Detail(a), e)
    ensures !Unsaved(InitialData(None, now).With(Detail(a), NormalizeInputValue(e)), None)
  {
    var initial := InitialData(None, now);
    var d := initial.With(Detail(a), NormalizeInputValue(e));
    assert d == initial.(details := initial.details[a := NormalizeInputValue(e)]);
    assert Trim("") == "";
  }

  /**
   * A role typed into a new character's text input and then deleted still
   * counts as a change: the text input stores `''`, which is not `null`.
   */
  lemma ClearedRoleIsChange(now: string)
    ensures Unsaved(InitialData(None, now).With(Role, NormalizeInputValue(Input("text", "", []))), None)
  {
  }

  /**
   * The details of `over`, in order, each through `cleanOptionalField` and
   * kept only when it has text: what the payload carries.
   */
  function CleanedOver(details: map<string, Value>, over: seq<string>): map<string, string> {
    if over == [] then map[]
    else
      var previous := CleanedOver(details, over[..|over| - 1]);
      var cleaned := CleanOptionalField(DetailValue(details, over[|over| - 1]));
      if cleaned.Some? then previous[over[|over| - 1] := cleaned.value] else previous
  }

  /** Cleaning one more detail of `over`. */
  lemma CleanedOverStep(details: map<string, Value>, over: seq<string>, i: int)
    requires 0 <= i < |over|
    ensures var cleaned := CleanOptionalField(DetailValue(details, over[i]));
      CleanedOver(details, over[..i + 1])
        == if cleaned.Some? then CleanedOver(details, over[..i])[over[i] := cleaned.value] else CleanedOver(details, over[..i])
  {
    assert over[..i + 1][..i] == over[..i];
  }

  /** The cleaned details are exactly those of `over` that have text, each trimmed. */
  lemma {:induction false} CleanedOverMeans(details: map<string, Value>, over: seq<string>)
    ensures forall a :: a in CleanedOver(details, over) <==>
      a in over && a in details && CleanOptionalField(details[a]).Some?
    ensures forall a :: a in CleanedOver(details, over) ==>
      CleanedOver(details, over)[a] == CleanOptionalField(details[a]).value
  {
    if over != [] {
      var init := over[..|over| - 1];
      CleanedOverMeans(details, init);
      assert over == init + [over[|over| - 1]];
    }
  }

  /** A character insert or update payload; `None` and absent details are keys the object does not have. */
  datatype CharacterPayload = CharacterPayload(
    name: string, age: Option<int>, biography: Option<string>, role: Option<string>,
    details: map<string, string>, idManuscript: Option<Value>)

  /**
   * The payload `handleSubmit` builds: the trimmed name; the age through
   * `validateAge` (the computation of `validateWordCount`); each attribute that
   * has text, trimmed; the manuscript when present.
   */
  predicate IsCharacterPayload(p: CharacterPayload, d: CharacterData) {
    d.name.Str?
    && p.name == Trim(d.name.s)
    && p.age == ValidateWordCount(d.age)
    && p.biography == CleanOptionalField(d.biography)
    && p.role == CleanOptionalField(d.role)
    && p.details == CleanedOver(d.details, Details)
    && p.idManuscript == Present(d.idManuscript)
  }

  /** A payload sends only trimmed, non-empty texts, a non-negative age and a present manuscript. */
  lemma PayloadOmitsEmptyValues(p: CharacterPayload, d: CharacterData)
    requires Typed(d) && IsCharacterPayload(p, d)
    ensures p.age.Some? ==> p.age.value >= 0
    ensures p.idManuscript.Some? ==> !IsNullish(p.idManuscript.value)
    ensures p.biography.Some? ==> p.biography.value != "" && Trim(p.biography.value) == p.biography.value
    ensures p.role.Some? ==> p.role.value != "" && Trim(p.role.value) == p.role.value
    ensures forall a :: a in p.details ==> p.details[a] != "" && Trim(p.details[a]) == p.details[a]
  {
    if p.biography.Some? {
      TrimIdempotent(d.biography.s);
    }
    if p.role.Some? {
      TrimIdempotent(d.role.s);
    }
    CleanedOverMeans(d.details, Details);
    forall a | a in p.details
      ensures p.details[a] != "" && Trim(p.details[a]) == p.details[a]
    {
      TrimIdempotent(d.details[a].s);
    }
  }

  /** For a character that passed validation, the age is sent exactly as entered. */
  lemma ValidatedAgeIsSent(p: CharacterPayload, d: CharacterData)
    requires Typed(d) && Submittable(d) && IsCharacterPayload(p, d)
    ensures d.age.Num? ==> p.age == Some(d.age.n)
    ensures d.age.Null? ==> p.age.None?
  {
    SubmittableMeans(d);
  }

  class CharacterForm {
    var formData: CharacterData
    var fieldErrors: map<string, string>
    var touched: set<string>
    var isSubmitting: bool
    var error: Option<string>
    /** The character being edited; `None` for a new character. */
    const initial: Option<Record>

    ghost predicate Valid()
      reads this
    {
      Typed(formData) && (initial.Some? ==> RowTyped(initial.value))
    }

    /** `now` stands for `new Date().toISOString()`. */
    constructor (initialData: Option<Record>, now: string)
      requires initialData.Some? ==> RowTyped(initialData.value)
      ensures Valid()
      ensures initial == initialData && formData == InitialData(initialData, now)
      ensures fieldErrors == map[] && touched == {} && !isSubmitting && error.None?
    {
      initial := initialData;
      formData := InitialData(initialData, now);
      fieldErrors := map[];
      touched := {};
      isSubmitting := false;
      error := None;
    }

    function HasUnsavedChanges(): bool
      reads this
      requires Valid()
    {
      Unsaved(formData, initial)
    }

    /** What the leave-page guard is given: unsaved changes while not submitting. */
    function GuardsNavigation(): (r: bool)
      reads this
      requires Valid()
      ensures r ==> !isSubmitting
    {
      HasUnsavedChanges() && !isSubmitting
    }

    /** `validateField`: records the outcome under the field's name in `fieldErrors` and reports it. */
    method ValidateField(f: Field, value: Value) returns (ok: bool)
      requires RuleApplies(f, value)
      modifies this`fieldErrors
      ensures ok <==> Rule(f, value).Valid?
      ensures fieldErrors == ErrorsAfter(old(fieldErrors), f.Key(), Rule(f, value))
    {
      var validation := Rule(f, value);
      fieldErrors := ErrorsAfter(fieldErrors, f.Key(), validation);
      ok := validation.Valid?;
    }

    /** `handleInputChange`: stores the normalised value and revalidates a touched field. */
    method HandleInputChange(f: Field, e: Element)
      requires Valid() && RenderedAs(f, e)
      modifies this`formData, this`fieldErrors
      ensures Valid()
      ensures formData == old(formData).With(f, NormalizeInputValue(e))
      ensures f.Key() in touched ==> fieldErrors == ErrorsAfter(old(fieldErrors), f.Key(), Rule(f, NormalizeInputValue(e)))
      ensures f.Key() !in touched ==> fieldErrors == old(fieldErrors)
    {
      var value := NormalizeInputValue(e);
      InputKeepsTyped(formData, f, e);
      formData := formData.With(f, value);
      if f.Key() in touched {
        var _ := ValidateField(f, value);
      }
    }

    /** `handleBlur`: marks the field touched and validates its current value. */
    method HandleBlur(f: Field)
      requires Valid()
      modifies this`touched, this`fieldErrors
      ensures touched == old(touched) + {f.Key()}
      ensures fieldErrors == ErrorsAfter(old(fieldErrors), f.Key(), Rule(f, formData.Get(f)))
    {
      touched := touched + {f.Key()};
      var _ := ValidateField(f, formData.Get(f));
    }

    /**
     * The payload of `handleSubmit`: the trimmed name, then each of the
     * optional values in turn when it has one. The update and the insert build
     * the same object.
     */
    method BuildCharacterData() returns (payload: CharacterPayload)
      requires Valid()
      ensures IsCharacterPayload(payload, formData)
    {
      var age := ValidateWordCount(formData.age);
      var biography := CleanOptionalField(formData.biography);
      var role := CleanOptionalField(formData.role);
      var details: map<string, string> := map[];
      var names := Details;
      for i := 0 to |names|
        invariant details == CleanedOver(formData.details, names[..i])
      {
        var cleaned := CleanOptionalField(DetailValue(formData.details, names[i]));
        CleanedOverStep(formData.details, names, i);
        if cleaned.Some? {
          details := details[names[i] := cleaned.value];
        }
      }
      assert names[..|names|] == names;
      payload := CharacterPayload(Trim(formData.name.s), age, biography, role, details, Present(formData.idManuscript));
    }

    /**
     * The validation pass of `handleSubmit`: validates each field in order and
     * marks the three touched (React applies the three `add`s together).
     */
    method ValidateAll() returns (isValid: bool)
      requires Valid()
      modifies this`fieldErrors, this`touched
      ensures touched == old(touched) + {"name", "age", "biography"}
      ensures fieldErrors == ErrorsAfterAll(old(fieldErrors), Keys(Fields), Results(formData))
      ensures forall i :: 0 <= i < |Fields| ==> (Fields[i].Key() in fieldErrors <==> Results(formData)[i].Invalid?)
      ensures isValid <==> Submittable(formData)
    {
      isValid := true;
      for i := 0 to |Fields|
        invariant touched == old(touched)
        invariant fieldErrors == ErrorsAfterAll(old(fieldErrors), Keys(Fields)[..i], Results(formData)[..i])
        invariant isValid == AllPass(Results(formData)[..i])
      {
        var field := Fields[i];
        ResultAt(formData, i);
        var fieldValid := ValidateField(field, formData.Get(field));
        assert fieldErrors == ErrorsAfterAll(old(fieldErrors), Keys(Fields)[..i + 1], Results(formData)[..i + 1]) by {
          ValidationStep(old(fieldErrors), formData, i);
        }
        AllPassSnoc(Results(formData), i);
        if !fieldValid {
          isValid := false;
        }
      }
      touched := touched + {"name", "age", "biography"};
      SubmitLoopDone(old(fieldErrors), formData);
    }

    /** Whether the submit updates the row being edited: `initialData?.id_character` is truthy. */
    predicate IsUpdate() {
      initial.Some? && Truthy(Js.Get(initial.value, "id_character"))
    }

    /**
     * The `try`/`catch`/`finally` of `handleSubmit`: raises the submit flag,
     * needs a user, then sends an update or an insert; the failure message
     * ends in `error` and the flag is cleared.
     */
    method Send(auth: AuthResult, save: SaveResult) returns (request: Request<CharacterPayload>, outcome: Outcome)
      requires Valid()
      modifies this`isSubmitting, this`error
      ensures !isSubmitting && error == ErrorOf(outcome) && !outcome.Blocked?
      ensures auth.NoUser? ==> request == NoRequest && outcome == Rejected("No user authenticated")
      ensures auth.Authenticated? ==> outcome == SaveOutcome(save, "Error saving character")
      ensures auth.Authenticated? ==> IsSaveRequest(request)
    {
      isSubmitting := true;
      if auth.NoUser? {
        request := NoRequest;
        outcome := Rejected("No user authenticated");
      } else {
        var payload := BuildCharacterData();
        if IsUpdate() {
          request := Update(Js.Get(initial.value, "id_character"), payload);
        } else {
          request := Insert(payload);
        }
        outcome := SaveOutcome(save, "Error saving character");
      }
      error := ErrorOf(outcome);
      isSubmitting := false;
    }

    /**
     * What the `try` block sends for a signed-in user: an update of the edited
     * row by its id, or an insert; either way the cleaned character payload.
     */
    ghost predicate IsSaveRequest(request: Request<CharacterPayload>)
      reads this`formData
    {
      && (IsUpdate() ==>
            request.Update? && request.id == Js.Get(initial.value, "id_character")
            && IsCharacterPayload(request.payload, formData))
      && (!IsUpdate() ==> request.Insert? && IsCharacterPayload(request.payload, formData))
    }

    /**
     * `handleSubmit`: clears the banner, validates, and sends only when every
     * field passes; a blocked submit never raises the submit flag.
     */
    method Submit(auth: AuthResult, save: SaveResult) returns (request: Request<CharacterPayload>, outcome: Outcome)
      requires Valid()
      modifies this`fieldErrors, this`touched, this`isSubmitting, this`error
      ensures Valid() && error == ErrorOf(outcome)
      ensures touched == old(touched) + {"name", "age", "biography"}
      ensures fieldErrors == ErrorsAfterAll(old(fieldErrors), Keys(Fields), Results(formData))
      ensures forall i :: 0 <= i < |Fields| ==> (Fields[i].Key() in fieldErrors <==> Results(formData)[i].Invalid?)
      ensures outcome.Blocked? <==> !Submittable(formData)
      ensures outcome.Blocked? ==> request == NoRequest && isSubmitting == old(isSubmitting)
      ensures !outcome.Blocked? ==> !isSubmitting
      ensures !outcome.Blocked? && auth.NoUser? ==> request == NoRequest && outcome == Rejected("No user authenticated")
      ensures !outcome.Blocked? && auth.Authenticated? ==> outcome == SaveOutcome(save, "Error saving character")
      ensures !outcome.Blocked? && auth.Authenticated? ==> IsSaveRequest(request)
    {
      error := None;
      var isValid := ValidateAll();
      if !isValid {
        request := NoRequest;
        outcome := Blocked;
        return;
      }
      request, outcome := Send(auth, save);
    }
  }
}
