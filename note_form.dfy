/**
 * The note editor's state (src/components/notes/hooks/useNoteForm.ts): the
 * form data, per-field errors, touched set, submit flag and banner error, with
 * the handlers that update them. The repository call is an input to `Submit`.
 */
module NoteFormHook {
  import opened Wrappers
  import opened Js
  import opened Text
  import opened Validations
  import opened FormHelpers
  import opened FormCommon

  /** A `note` row as the database types it. */
  predicate RowTyped(row: Record) {
    && Js.Get(row, "title").Str?
    && Js.Get(row, "id_note").Num?
    && NullableColumn(Js.Get(row, "content"), true)
    && NullableColumn(Js.Get(row, "category"), true)
    && NullableColumn(Js.Get(row, "priority"), true)
    && NullableColumn(Js.Get(row, "id_manuscript"), false)
  }

  /** The note editor's fields, each known by its `name` attribute. */
  datatype Field = Title | Content | Category | Priority | IdManuscript
  {
    function Key(): string {
      match this
      case Title => "title"
      case Content => "content"
      case Category => "category"
      case Priority => "priority"
      case IdManuscript => "id_manuscript"
    }
  }

  /** `FIELDS_TO_VALIDATE`, in order. */
  const Fields: seq<Field> := [Title, Content, Category]

  /** The names of `fields`. */
  function Keys(fields: seq<Field>): (r: seq<string>)
    ensures |r| == |fields| && forall i :: 0 <= i < |fields| ==> r[i] == fields[i].Key()
  {
    seq(|fields|, i requires 0 <= i < |fields| => fields[i].Key())
  }

  /** The editor's form data. */
  datatype NoteData = NoteData(title: Value, content: Value, category: Value, priority: Value, idManuscript: Value)
  {
    /** `formData[name]`. */
    function Get(f: Field): Value {
      match f
      case Title => title
      case Content => content
      case Category => category
      case Priority => priority
      case IdManuscript => idManuscript
    }

    /** `{ ...prev, [name]: value }`. */
    function With(f: Field, value: Value): (d: NoteData)
      ensures d.Get(f) == value
      ensures forall g :: g != f ==> d.Get(g) == Get(g)
    {
      match f
      case Title => this.(title := value)
      case Content => this.(content := value)
      case Category => this.(category := value)
      case Priority => this.(priority := value)
      case IdManuscript => this.(idManuscript := value)
    }
  }

  /**
   * What the form's fields can hold. The title starts as a string but becomes
   * `null` once the input is cleared; a selected manuscript id arrives as a string.
   */
  predicate Typed(d: NoteData) {
    && StringOrNull(d.title)
    && StringOrNull(d.content)
    && StringOrNull(d.category)
    && StringOrNull(d.priority)
    && (NumberOrNull(d.idManuscript) || d.idManuscript.Str?)
  }

  /** `value === '' ? null : value`: what an edited field stores, without trimming. */
  function RawValue(value: string): (r: Value)
    ensures r.Null? <==> value == ""
    ensures r.Str? ==> r.s == value
  {
    if value == "" then Null else Str(value)
  }

  /** The initial form data: the row's values, or `''` and `null` for a new note. */
  function InitialData(initialData: Option<Record>): (d: NoteData)
    requires initialData.Some? ==> RowTyped(initialData.value)
    ensures Typed(d)
    ensures initialData.None? ==> d == NoteData(Str(""), Null, Null, Null, Null)
    ensures initialData.Some? ==> d.title == Js.Get(initialData.value, "title")
  {
    var row := initialData.GetOr(map[]);
    NoteData(
      title := Coalesce(Js.Get(row, "title"), Str("")),
      content := Coalesce(Js.Get(row, "content"), Null),
      category := Coalesce(Js.Get(row, "category"), Null),
      priority := Coalesce(Js.Get(row, "priority"), Null),
      idManuscript := Coalesce(Js.Get(row, "id_manuscript"), Null))
  }

  /** The values each validated field may be checked with. */
  predicate RuleApplies(f: Field, value: Value) {
    f == Title || f == Content || f == Category ==> IsNullableString(value)
  }

  /**
   * `validateField`: the title through `validateRequired`, `validateMinLength`
   * (2) and `validateMaxLength` (200); non-empty content and category through
   * `validateMaxLength` (10000 and 100); priority and manuscript are valid.
   */
  function Rule(f: Field, value: Value): Validation
    requires RuleApplies(f, value)
  {
    match f
    case Title =>
      var required := ValidateRequired(value, "Title");
      var minimum := if required.Valid? then ValidateMinLength(value, 2, "Title") else required;
      if minimum.Valid? then ValidateMaxLength(value, 200, "Title") else minimum
    case Content => if Truthy(value) then ValidateMaxLength(value, 10000, "Content") else Valid
    case Category => if Truthy(value) then ValidateMaxLength(value, 100, "Category") else Valid
    case _ => Valid
  }

  /** What each rule accepts; a failure always carries a message. */
  lemma RuleMeans(f: Field, value: Value)
    requires RuleApplies(f, value)
    ensures f == Title ==> (Rule(f, value).Valid? <==> value.Str? && !IsBlank(value.s) && 2 <= |value.s| <= 200)
    ensures f == Content ==> (Rule(f, value).Valid? <==> !value.Str? || |value.s| <= 10000)
    ensures f == Category ==> (Rule(f, value).Valid? <==> !value.Str? || |value.s| <= 100)
    ensures f !in Fields ==> Rule(f, value).Valid?
    ensures Rule(f, value).Invalid? ==> Rule(f, value).error != ""
  {
    if f == Title && value.Str? && !IsBlank(value.s) {
      RequiredThenLength(value, 2, 200, "Title");
    }
  }

  /** The validation results of the submit loop. */
  function Results(d: NoteData): (r: seq<Validation>)
    requires Typed(d)
    ensures |r| == |Fields|
  {
    [Rule(Title, d.title), Rule(Content, d.content), Rule(Category, d.category)]
  }

  /** The submit loop's `i`-th step validates `formData[FIELDS_TO_VALIDATE[i]]`. */
  lemma ResultAt(d: NoteData, i: int)
    requires Typed(d) && 0 <= i < |Fields|
    ensures RuleApplies(Fields[i], d.Get(Fields[i]))
    ensures Results(d)[i] == Rule(Fields[i], d.Get(Fields[i]))
  {
  }

  /** The names of the validated fields are distinct. */
  lemma FieldKeysDistinct()
    ensures forall i, j :: 0 <= i < j < |Fields| ==> Keys(Fields)[i] != Keys(Fields)[j]
  {
    assert Keys(Fields) == ["title", "content", "category"];
  }

  /** One step of the submit loop extends the error-map fold by the `i`-th field. */
  lemma ValidationStep(errors: map<string, string>, d: NoteData, i: int)
    requires Typed(d) && 0 <= i < |Fields|
    ensures ErrorsAfterAll(errors, Keys(Fields)[..i + 1], Results(d)[..i + 1])
      == ErrorsAfter(ErrorsAfterAll(errors, Keys(Fields)[..i], Results(d)[..i]), Fields[i].Key(), Results(d)[i])
  {
    assert Keys(Fields)[..i + 1] == Keys(Fields)[..i] + [Fields[i].Key()];
    assert Results(d)[..i + 1] == Results(d)[..i] + [Results(d)[i]];
    ErrorsAfterAllSnoc(errors, Keys(Fields)[..i], Results(d)[..i], Fields[i].Key(), Results(d)[i]);
  }

  /** After the whole submit loop, exactly the failing fields have an error. */
  lemma SubmitLoopDone(errors: map<string, string>, d: NoteData)
    requires Typed(d)
    ensures Keys(Fields)[..|Fields|] == Keys(Fields) && Results(d)[..|Fields|] == Results(d)
    ensures forall i :: 0 <= i < |Fields| ==>
      (Fields[i].Key() in ErrorsAfterAll(errors, Keys(Fields), Results(d)) <==> Results(d)[i].Invalid?)
  {
    FieldKeysDistinct();
    ErrorsAfterAllEntries(errors, Keys(Fields), Results(d));
  }

  /** Whether every validated field passes. */
  predicate Submittable(d: NoteData)
    requires Typed(d)
  {
    AllPass(Results(d))
  }

  /** What each validation result of the submit loop says about its field. */
  lemma ResultsMean(d: NoteData)
    requires Typed(d)
    ensures Results(d)[0].Valid? <==> d.title.Str? && !IsBlank(d.title.s) && 2 <= |d.title.s| <= 200
    ensures Results(d)[1].Valid? <==> !d.content.Str? || |d.content.s| <= 10000
    ensures Results(d)[2].Valid? <==> !d.category.Str? || |d.category.s| <= 100
  {
    assert Results(d) == [Rule(Title, d.title), Rule(Content, d.content), Rule(Category, d.category)];
    RuleMeans(Title, d.title);
    RuleMeans(Content, d.content);
    RuleMeans(Category, d.category);
  }

  /** A note can be submitted exactly when its title, content and category meet their rules. */
  lemma SubmittableMeans(d: NoteData)
    requires Typed(d)
    ensures Submittable(d) <==>
      && d.title.Str? && !IsBlank(d.title.s) && 2 <= |d.title.s| <= 200
      && (!d.content.Str? || |d.content.s| <= 10000)
      && (!d.category.Str? || |d.category.s| <= 100)
  {
    ResultsMean(d);
    AllPassMeans(Results(d));
    assert Submittable(d) <==> Results(d)[0].Valid? && Results(d)[1].Valid? && Results(d)[2].Valid?;
  }

  /** The value of a `useMemo` computation, or the `TypeError` it throws. */
  datatype Memo = Computed(unsaved: bool) | TypeError

  /**
   * `hasUnsavedChanges` as written: on a new note it calls `formData.title.trim()`,
   * which throws once the title input has been cleared and holds `null`.
   */
  function UnsavedAsWritten(d: NoteData, initial: Option<Record>): (r: Memo)
    ensures r.TypeError? <==> initial.None? && !d.title.Str?
  {
    if initial.None? then
      if !d.title.Str? then TypeError
      else Computed(
        || Trim(d.title.s) != ""
        || !StrictEquals(d.content, Null)
        || !StrictEquals(d.category, Null)
        || !StrictEquals(d.priority, Null)
        || !StrictEquals(d.idManuscript, Null))
    else
      var row := initial.value;
      Computed(
        || !StrictEquals(d.title, Js.Get(row, "title"))
        || !StrictEquals(d.content, Coalesce(Js.Get(row, "content"), Null))
        || !StrictEquals(d.category, Coalesce(Js.Get(row, "category"), Null))
        || !StrictEquals(d.priority, Coalesce(Js.Get(row, "priority"), Null))
        || !StrictEquals(d.idManuscript, Coalesce(Js.Get(row, "id_manuscript"), Null)))
  }

  /** Typing a title into a new note and then clearing it makes `hasUnsavedChanges` throw. */
  lemma ClearedTitleThrows(title: string)
    ensures UnsavedAsWritten(InitialData(None).With(Title, Str(title)).With(Title, RawValue("")), None) == TypeError
  {
  }

  /** `(formData.title ?? '')`: the title text, with a cleared title read as empty. */
  function TitleText(title: Value): (r: string)
    ensures title.Str? ==> r == title.s
    ensures title.Null? ==> r == ""
  {
    if title.Str? then title.s else ""
  }

  /**
   * `hasUnsavedChanges` as intended: a cleared title on a new note reads as an
   * empty one; otherwise the same comparisons.
   */
  function Unsaved(d: NoteData, initial: Option<Record>): bool {
    if initial.None? then
      || Trim(TitleText(d.title)) != ""
      || !StrictEquals(d.content, Null)
      || !StrictEquals(d.category, Null)
      || !StrictEquals(d.priority, Null)
      || !StrictEquals(d.idManuscript, Null)
    else
      var row := initial.value;
      || !StrictEquals(d.title, Js.Get(row, "title"))
      || !StrictEquals(d.content, Coalesce(Js.Get(row, "content"), Null))
      || !StrictEquals(d.category, Coalesce(Js.Get(row, "category"), Null))
      || !StrictEquals(d.priority, Coalesce(Js.Get(row, "priority"), Null))
      || !StrictEquals(d.idManuscript, Coalesce(Js.Get(row, "id_manuscript"), Null))
  }

  /** Wherever the code as written computes a value, the corrected check agrees with it. */
  lemma UnsavedAgreesWhereDefined(d: NoteData, initial: Option<Record>)
    requires UnsavedAsWritten(d, initial).Computed?
    ensures Unsaved(d, initial) == UnsavedAsWritten(d, initial).unsaved
  {
  }

  /** With the correction, a new note whose title was typed and cleared has no unsaved changes. */
  lemma ClearedTitleIsNoChange(title: string)
    ensures !Unsaved(InitialData(None).With(Title, Str(title)).With(Title, RawValue("")), None)
  {
    var blank := InitialData(None);
    var typed := blank.With(Title, Str(title));
    assert typed == blank.(title := Str(title));
    assert RawValue("") == Null;
    var cleared := typed.With(Title, Null);
    assert cleared == NoteData(Null, Null, Null, Null, Null);
    assert TitleText(cleared.title) == "" && Trim("") == "";
  }

  /** A freshly opened editor, new or editing a row, has no unsaved changes. */
  lemma FreshFormIsSaved(initialData: Option<Record>)
    requires initialData.Some? ==> RowTyped(initialData.value)
    ensures !Unsaved(InitialData(initialData), initialData)
  {
    if initialData.None? {
      assert Trim("") == "";
    }
  }

  /** On a new note, a non-blank title alone is an unsaved change. */
  lemma NewNoteTitleIsChange(title: string)
    requires !IsBlank(title)
    ensures Unsaved(InitialData(None).With(Title, RawValue(title)), None)
  {
    assert Trim(title) != "";
  }

  /** A note insert or update payload; `None` is a key the object does not have. */
  datatype NotePayload = NotePayload(
    title: string, content: Option<string>, category: Option<string>, priority: Option<Value>, idManuscript: Option<Value>)

  /**
   * `buildNoteData`: the title given; cleaned content and category when they
   * have text; the priority unless it is `null`; the manuscript when present.
   */
  predicate IsNotePayload(p: NotePayload, d: NoteData, title: string) {
    && p.title == title
    && p.content == CleanOptionalField(d.content)
    && p.category == CleanOptionalField(d.category)
    && p.priority == (if d.priority.Null? then None else Some(d.priority))
    && p.idManuscript == Present(d.idManuscript)
  }

  /** A payload of typed form data sends no `null`, only trimmed non-empty texts and a textual priority. */
  lemma PayloadOmitsEmptyValues(p: NotePayload, d: NoteData, title: string)
    requires Typed(d) && IsNotePayload(p, d, title)
    ensures p.priority.Some? ==> p.priority.value.Str?
    ensures p.idManuscript.Some? ==> !IsNullish(p.idManuscript.value)
    ensures p.content.Some? ==> p.content.value != "" && Trim(p.content.value) == p.content.value
    ensures p.category.Some? ==> p.category.value != "" && Trim(p.category.value) == p.category.value
  {
    if p.content.Some? {
      TrimIdempotent(d.content.s);
    }
    if p.category.Some? {
      TrimIdempotent(d.category.s);
    }
  }

  /** Content that passes validation but is only white space is left out of the payload. */
  lemma BlankContentIsOmitted(p: NotePayload, d: NoteData, title: string)
    requires IsNotePayload(p, d, title) && d.content.Str? && IsBlank(d.content.s)
    ensures p.content.None?
  {
  }

  class NoteForm {
    var formData: NoteData
    var fieldErrors: map<string, string>
    var touched: set<string>
    var isSubmitting: bool
    var error: Option<string>
    /** The note being edited; `None` for a new note. */
    const initial: Option<Record>

    ghost predicate Valid()
      reads this
    {
      Typed(formData) && (initial.Some? ==> RowTyped(initial.value))
    }

    constructor (initialData: Option<Record>)
      requires initialData.Some? ==> RowTyped(initialData.value)
      ensures Valid()
      ensures initial == initialData && formData == InitialData(initialData)
      ensures fieldErrors == map[] && touched == {} && !isSubmitting && error.None?
    {
      initial := initialData;
      formData := InitialData(initialData);
      fieldErrors := map[];
      touched := {};
      isSubmitting := false;
      error := None;
    }

    /** `hasUnsavedChanges`, with the cleared-title correction. */
    function HasUnsavedChanges(): bool
      reads this
    {
      Unsaved(formData, initial)
    }

    /** What the leave-page guard is given: unsaved changes while not submitting. */
    function GuardsNavigation(): (r: bool)
      reads this
      ensures r ==> !isSubmitting
    {
      HasUnsavedChanges() && !isSubmitting
    }

    /** `validateField`: records the outcome under the field's name in `fieldErrors` and reports it. */
    method ValidateField(f: Field, value: Value) returns (ok: bool)
      requires RuleApplies(f, value)
      modifies this`fieldErrors
      ensures ok <==> Rule(f, value).Valid?
      ensures fieldErrors == ErrorsAfter(old(fieldErrors), f.Key(), Rule(f, value))
    {
      var validation := Rule(f, value);
      fieldErrors := ErrorsAfter(fieldErrors, f.Key(), validation);
      ok := validation.Valid?;
    }

    /** `handleInputChange`: stores the raw value (`null` when empty) and revalidates a touched field. */
    method HandleInputChange(f: Field, value: string)
      requires Valid()
      modifies this`formData, this`fieldErrors
      ensures Valid()
      ensures formData == old(formData).With(f, RawValue(value))
      ensures f.Key() in touched ==> fieldErrors == ErrorsAfter(old(fieldErrors), f.Key(), Rule(f, RawValue(value)))
      ensures f.Key() !in touched ==> fieldErrors == old(fieldErrors)
    {
      var newValue := RawValue(value);
      formData := formData.With(f, newValue);
      if f.Key() in touched {
        var _ := ValidateField(f, newValue);
      }
    }

    /** `handleBlur`: marks the field touched and validates its current value. */
    method HandleBlur(f: Field)
      requires Valid()
      modifies this`touched, this`fieldErrors
      ensures touched == old(touched) + {f.Key()}
      ensures fieldErrors == ErrorsAfter(old(fieldErrors), f.Key(), Rule(f, formData.Get(f)))
    {
      touched := touched + {f.Key()};
      var _ := ValidateField(f, formData.Get(f));
    }

    /** `buildNoteData`. */
    method BuildNoteData(title: string) returns (payload: NotePayload)
      ensures IsNotePayload(payload, formData, title)
    {
      var content := CleanOptionalField(formData.content);
      var category := CleanOptionalField(formData.category);
      payload := NotePayload(title, None, None, None, None);
      if content.Some? {
        payload := payload.(content := content);
      }
      assert payload.content == content;
      if category.Some? {
        payload := payload.(category := category);
      }
      assert payload.category == category;
      if !formData.priority.Null? {
        payload := payload.(priority := Some(formData.priority));
      }
      assert payload.priority == (if formData.priority.Null? then None else Some(formData.priority));
      if !IsNullish(formData.idManuscript) {
        payload := payload.(idManuscript := Some(formData.idManuscript));
      }
    }

    /**
     * The validation pass of `handleSubmit`: validates each field in order and
     * marks the three touched (React applies the three `add`s together).
     */
    method ValidateAll() returns (isValid: bool)
      requires Valid()
      modifies this`fieldErrors, this`touched
      ensures touched == old(touched) + {"title", "content", "category"}
      ensures fieldErrors == ErrorsAfterAll(old(fieldErrors), Keys(Fields), Results(formData))
      ensures forall i :: 0 <= i < |Fields| ==> (Fields[i].Key() in fieldErrors <==> Results(formData)[i].Invalid?)
      ensures isValid <==> Submittable(formData)
    {
      isValid := true;
      for i := 0 to |Fields|
        invariant touched == old(touched)
        invariant fieldErrors == ErrorsAfterAll(old(fieldErrors), Keys(Fields)[..i], Results(formData)[..i])
        invariant isValid == AllPass(Results(formData)[..i])
      {
        var field := Fields[i];
        ResultAt(formData, i);
        var fieldValid := ValidateField(field, formData.Get(field));
        assert fieldErrors == ErrorsAfterAll(old(fieldErrors), Keys(Fields)[..i + 1], Results(formData)[..i + 1]) by {
          ValidationStep(old(fieldErrors), formData, i);
        }
        AllPassSnoc(Results(formData), i);
        if !fieldValid {
          isValid := false;
        }
      }
      touched := touched + {"title", "content", "category"};
      SubmitLoopDone(old(fieldErrors), formData);
    }

    /**
     * The `try`/`catch`/`finally` of `handleSubmit`: an update of the note being
     * edited or an insert, with the trimmed title; the failure message ends in
     * `error` and the submit flag is cleared.
     */
    method Send(save: SaveResult) returns (request: Request<NotePayload>, outcome: Outcome)
      requires Valid() && formData.title.Str?
      modifies this`isSubmitting, this`error
      ensures !isSubmitting && error == ErrorOf(outcome)
      ensures outcome == SaveOutcome(save, "An error occurred")
      ensures IsSaveRequest(request)
    {
      var title := Trim(formData.title.s);
      var payload := BuildNoteData(title);
      if initial.Some? {
        request := Update(Js.Get(initial.value, "id_note"), payload);
      } else {
        request := Insert(payload);
      }
      outcome := SaveOutcome(save, "An error occurred");
      error := ErrorOf(outcome);
      isSubmitting := false;
    }

    /**
     * What the `try` block sends: an update of the note being edited by its id,
     * or an insert; either way the payload with the trimmed title.
     */
    ghost predicate IsSaveRequest(request: Request<NotePayload>)
      reads this`formData
    {
      && formData.title.Str?
      && (initial.Some? ==>
            request.Update? && request.id == Js.Get(initial.value, "id_note")
            && IsNotePayload(request.payload, formData, Trim(formData.title.s)))
      && (initial.None? ==> request.Insert? && IsNotePayload(request.payload, formData, Trim(formData.title.s)))
    }

    /**
     * `handleSubmit`: raises the submit flag, clears the banner, validates, and
     * sends only when every field passes; a blocked submit lowers the flag again.
     */
    method Submit(save: SaveResult) returns (request: Request<NotePayload>, outcome: Outcome)
      requires Valid()
      modifies this`fieldErrors, this`touched, this`isSubmitting, this`error
      ensures Valid() && !isSubmitting && error == ErrorOf(outcome)
      ensures touched == old(touched) + {"title", "content", "category"}
      ensures fieldErrors == ErrorsAfterAll(old(fieldErrors), Keys(Fields), Results(formData))
      ensures forall i :: 0 <= i < |Fields| ==> (Fields[i].Key() in fieldErrors <==> Results(formData)[i].Invalid?)
      ensures outcome.Blocked? <==> !Submittable(formData)
      ensures outcome.Blocked? ==> request == NoRequest
      ensures !outcome.Blocked? ==> outcome == SaveOutcome(save, "An error occurred")
      ensures !outcome.Blocked? ==> IsSaveRequest(request)
    {
      isSubmitting := true;
      error := None;
      var isValid := ValidateAll();
      if !isValid {
        isSubmitting := false;
        request := NoRequest;
        outcome := Blocked;
        return;
      }
      SubmittableMeans(formData);
      request, outcome := Send(save);
    }
  }
}
