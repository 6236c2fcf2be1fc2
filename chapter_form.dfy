/**
 * The chapter editor's state (src/components/chapters/hooks/useChapterForm.ts):
 * the form data, the per-field errors and touched set, the submit flag and the
 * banner error, with the handlers that update them. The auth lookup and the
 * repository call are inputs to `Submit`.
 */
module ChapterFormHook {
  import opened Wrappers
  import opened Js
  import opened Text
  import opened Validations
  import opened FormHelpers
  import opened FormCommon

  /** A `chapter` row as the database types it. */
  predicate RowTyped(row: Record) {
    && Js.Get(row, "name_chapter").Str?
    && Js.Get(row, "id_chapter").Num?
    && NullableColumn(Js.Get(row, "chapter_number"), false)
    && NullableColumn(Js.Get(row, "word_count"), false)
    && NullableColumn(Js.Get(row, "id_manuscript"), false)
    && NullableColumn(Js.Get(row, "summary"), true)
    && NullableColumn(Js.Get(row, "status"), true)
    && NullableColumn(Js.Get(row, "date_created"), true)
    && NullableColumn(Js.Get(row, "id_user"), true)
    && NullableColumn(Js.Get(row, "last_edit"), true)
  }

  /** The chapter editor's fields, each known by its `name` attribute. */
  datatype Field = NameChapter | ChapterNumber | DateCreated | IdManuscript | IdUser | LastEdit | Status | Summary | WordCount
  {
    function Key(): string {
      match this
      case NameChapter => "name_chapter"
      case ChapterNumber => "chapter_number"
      case DateCreated => "date_created"
      case IdManuscript => "id_manuscript"
      case IdUser => "id_user"
      case LastEdit => "last_edit"
      case Status => "status"
      case Summary => "summary"
      case WordCount => "word_count"
    }
  }

  /** `FIELDS_TO_VALIDATE`, in order. */
  const Fields: seq<Field> := [NameChapter, WordCount, Summary]

  /** The names of `fields`. */
  function Keys(fields: seq<Field>): (r: seq<string>)
    ensures |r| == |fields| && forall i :: 0 <= i < |fields| ==> r[i] == fields[i].Key()
  {
    seq(|fields|, i requires 0 <= i < |fields| => fields[i].Key())
  }

  /** The editor's form data: a chapter without its id. */
  datatype ChapterData = ChapterData(
    nameChapter: Value, chapterNumber: Value, dateCreated: Value, idManuscript: Value,
    idUser: Value, lastEdit: Value, status: Value, summary: Value, wordCount: Value)
  {
    /** `formData[name]`. */
    function Get(f: Field): Value {
      match f
      case NameChapter => nameChapter
      case ChapterNumber => chapterNumber
      case DateCreated => dateCreated
      case IdManuscript => idManuscript
      case IdUser => idUser
      case LastEdit => lastEdit
      case Status => status
      case Summary => summary
      case WordCount => wordCount
    }

    /** `{ ...formData, [name]: value }`. */
    function With(f: Field, value: Value): (d: ChapterData)
      ensures d.Get(f) == value
      ensures forall g :: g != f ==> d.Get(g) == Get(g)
    {
      match f
      case NameChapter => this.(nameChapter := value)
      case ChapterNumber => this.(chapterNumber := value)
      case DateCreated => this.(dateCreated := value)
      case IdManuscript => this.(idManuscript := value)
      case IdUser => this.(idUser := value)
      case LastEdit => this.(lastEdit := value)
      case Status => this.(status := value)
      case Summary => this.(summary := value)
      case WordCount => this.(wordCount := value)
    }
  }

  /** What the form's fields can hold: the title is always a string; a selected manuscript id arrives as a string. */
  predicate Typed(d: ChapterData) {
    && d.nameChapter.Str?
    && NumberOrNull(d.chapterNumber)
    && NumberOrNull(d.wordCount)
    && StringOrNull(d.summary)
    && StringOrNull(d.status)
    && (NumberOrNull(d.idManuscript) || d.idManuscript.Str?)
  }

  /** The element each field is rendered with in the chapter editor; the other fields have none. */
  predicate RenderedAs(f: Field, e: Element) {
    match e
    case Input(inputType, _, _) =>
      (f == NameChapter && inputType == "text") || ((f == ChapterNumber || f == WordCount) && inputType == "number")
    case SelectBox(_) => f == Status || f == IdManuscript
    case TextArea(_) => f == Summary
  }

  /** Storing what a rendered element yields keeps the form typed. */
  lemma InputKeepsTyped(d: ChapterData, f: Field, e: Element)
    requires Typed(d) && RenderedAs(f, e)
    ensures Typed(d.With(f, NormalizeInputValue(e)))
  {
  }

  /** The initial form data: the row's values, or `''`, the current time and `null` for a new chapter. */
  function InitialData(initialData: Option<Record>, now: string): (d: ChapterData)
    requires initialData.Some? ==> RowTyped(initialData.value)
    ensures Typed(d)
    ensures initialData.None? ==> d == ChapterData(Str(""), Null, Str(now), Null, Null, Null, Null, Null, Null)
  {
    var row := initialData.GetOr(map[]);
    ChapterData(
      nameChapter := Coalesce(Js.Get(row, "name_chapter"), Str("")),
      chapterNumber := Coalesce(Js.Get(row, "chapter_number"), Null),
      dateCreated := Coalesce(Js.Get(row, "date_created"), Str(now)),
      idManuscript := Coalesce(Js.Get(row, "id_manuscript"), Null),
      idUser := Coalesce(Js.Get(row, "id_user"), Null),
      lastEdit := Coalesce(Js.Get(row, "last_edit"), Null),
      status := Coalesce(Js.Get(row, "status"), Null),
      summary := Coalesce(Js.Get(row, "summary"), Null),
      wordCount := Coalesce(Js.Get(row, "word_count"), Null))
  }

  /** The values each validated field may be checked with. */
  predicate RuleApplies(f: Field, value: Value) {
    && (f == NameChapter || f == Summary ==> IsNullableString(value))
    && (f == WordCount ==> IsNullableNumber(value))
  }

  /**
   * `validateField`: the title through `validateRequired`, `validateMinLength`
   * (2) and `validateMaxLength` (200); a word count present through
   * `validatePositiveNumber`; a non-empty summary through `validateMaxLength`
   * (2000); every other field is valid.
   */
  function Rule(f: Field, value: Value): Validation
    requires RuleApplies(f, value)
  {
    match f
    case NameChapter =>
      var required := ValidateRequired(value, "Title");
      var minimum := if required.Valid? then ValidateMinLength(value, 2, "Title") else required;
      if minimum.Valid? then ValidateMaxLength(value, 200, "Title") else minimum
    case WordCount => if !IsNullish(value) then ValidatePositiveNumber(value, "Word count") else Valid
    case Summary => if Truthy(value) then ValidateMaxLength(value, 2000, "Summary") else Valid
    case _ => Valid
  }

  /** What each rule accepts; a failure always carries a message. */
  lemma RuleMeans(f: Field, value: Value)
    requires RuleApplies(f, value)
    ensures f == NameChapter ==> (Rule(f, value).Valid? <==> value.Str? && !IsBlank(value.s) && 2 <= |value.s| <= 200)
    ensures f == WordCount ==> (Rule(f, value).Valid? <==> IsNullish(value) || (value.Num? && value.n >= 0))
    ensures f == Summary ==> (Rule(f, value).Valid? <==> !value.Str? || |value.s| <= 2000)
    ensures f !in Fields ==> Rule(f, value).Valid?
    ensures Rule(f, value).Invalid? ==> Rule(f, value).error != ""
  {
    if f == NameChapter && value.Str? && !IsBlank(value.s) {
      RequiredThenLength(value, 2, 200, "Title");
    }
  }

  /** The title rule is `validateMultiple` over the required, minimum and maximum checks. */
  lemma TitleRuleIsChain(value: Value)
    requires IsNullableString(value)
    ensures Rule(NameChapter, value) == ValidateMultiple(value, [
      (v: Value) => if IsNullableString(v) then ValidateRequired(v, "Title") else Valid,
      (v: Value) => if IsNullableString(v) then ValidateMinLength(v, 2, "Title") else Valid,
      (v: Value) => if IsNullableString(v) then ValidateMaxLength(v, 200, "Title") else Valid])
  {
    var required := (v: Value) => if IsNullableString(v) then ValidateRequired(v, "Title") else Valid;
    var minimum := (v: Value) => if IsNullableString(v) then ValidateMinLength(v, 2, "Title") else Valid;
    var maximum := (v: Value) => if IsNullableString(v) then ValidateMaxLength(v, 200, "Title") else Valid;
    assert [required, minimum, maximum][1..] == [minimum, maximum];
    MultipleOfTwo(value, minimum, maximum);
  }

  /** The validation results of the submit loop. */
  function Results(d: ChapterData): (r: seq<Validation>)
    requires Typed(d)
    ensures |r| == |Fields|
  {
    [Rule(NameChapter, d.nameChapter), Rule(WordCount, d.wordCount), Rule(Summary, d.summary)]
  }

  /** The submit loop's `i`-th step validates `formData[FIELDS_TO_VALIDATE[i]]`. */
  lemma ResultAt(d: ChapterData, i: int)
    requires Typed(d) && 0 <= i < |Fields|
    ensures RuleApplies(Fields[i], d.Get(Fields[i]))
    ensures Results(d)[i] == Rule(Fields[i], d.Get(Fields[i]))
  {
  }

  /** The names of the validated fields are distinct. */
  lemma FieldKeysDistinct()
    ensures forall i, j :: 0 <= i < j < |Fields| ==> Keys(Fields)[i] != Keys(Fields)[j]
  {
    assert Keys(Fields) == ["name_chapter", "word_count", "summary"];
  }

  /** One step of the submit loop extends the error-map fold by the `i`-th field. */
  lemma ValidationStep(errors: map<string, string>, d: ChapterData, i: int)
    requires Typed(d) && 0 <= i < |Fields|
    ensures ErrorsAfterAll(errors, Keys(Fields)[..i + 1], Results(d)[..i + 1])
      == ErrorsAfter(ErrorsAfterAll(errors, Keys(Fields)[..i], Results(d)[..i]), Fields[i].Key(), Results(d)[i])
  {
    assert Keys(Fields)[..i + 1] == Keys(Fields)[..i] + [Fields[i].Key()];
    assert Results(d)[..i + 1] == Results(d)[..i] + [Results(d)[i]];
    ErrorsAfterAllSnoc(errors, Keys(Fields)[..i], Results(d)[..i], Fields[i].Key(), Results(d)[i]);
  }

  /** After the whole submit loop, exactly the failing fields have an error. */
  lemma SubmitLoopDone(errors: map<string, string>, d: ChapterData)
    requires Typed(d)
    ensures Keys(Fields)[..|Fields|] == Keys(Fields) && Results(d)[..|Fields|] == Results(d)
    ensures forall i :: 0 <= i < |Fields| ==>
      (Fields[i].Key() in ErrorsAfterAll(errors, Keys(Fields), Results(d)) <==> Results(d)[i].Invalid?)
  {
    FieldKeysDistinct();
    ErrorsAfterAllEntries(errors, Keys(Fields), Results(d));
  }

  /** Whether every validated field passes. */
  predicate Submittable(d: ChapterData)
    requires Typed(d)
  {
    AllPass(Results(d))
  }

  /** What each validation result of the submit loop says about its field. */
  lemma ResultsMean(d: ChapterData)
    requires Typed(d)
    ensures Results(d)[0].Valid? <==> !IsBlank(d.nameChapter.s) && 2 <= |d.nameChapter.s| <= 200
    ensures Results(d)[1].Valid? <==> d.wordCount.Null? || d.wordCount.n >= 0
    ensures Results(d)[2].Valid? <==> !d.summary.Str? || |d.summary.s| <= 2000
  {
    assert Results(d) == [Rule(NameChapter, d.nameChapter), Rule(WordCount, d.wordCount), Rule(Summary, d.summary)];
    RuleMeans(NameChapter, d.nameChapter);
    RuleMeans(WordCount, d.wordCount);
    RuleMeans(Summary, d.summary);
  }

  /** A chapter can be submitted exactly when its title, word count and summary meet their rules. */
  lemma SubmittableMeans(d: ChapterData)
    requires Typed(d)
    ensures Submittable(d) <==>
      && !IsBlank(d.nameChapter.s) && 2 <= |d.nameChapter.s| <= 200
      && (d.wordCount.Null? || d.wordCount.n >= 0)
      && (!d.summary.Str? || |d.summary.s| <= 2000)
  {
    ResultsMean(d);
    AllPassMeans(Results(d));
    assert Submittable(d) <==> Results(d)[0].Valid? && Results(d)[1].Valid? && Results(d)[2].Valid?;
  }

  /** `hasUnsavedChanges`: anything entered on a new chapter, or any tracked field differing from the row. */
  function Unsaved(d: ChapterData, initial: Option<Record>): bool
    requires d.nameChapter.Str?
  {
    if initial.None? then
      var wordCount := Coalesce(d.wordCount, Num(0));
      || Trim(d.nameChapter.s) != ""
      || !StrictEquals(d.summary, Null)
      || (wordCount.Num? && wordCount.n > 0)
      || !StrictEquals(d.chapterNumber, Null)
      || !StrictEquals(d.status, Null)
    else
      var row := initial.value;
      || !StrictEquals(d.nameChapter, Js.Get(row, "name_chapter"))
      || !StrictEquals(d.summary, Coalesce(Js.Get(row, "summary"), Null))
      || !StrictEquals(d.wordCount, Coalesce(Js.Get(row, "word_count"), Null))
      || !StrictEquals(d.chapterNumber, Coalesce(Js.Get(row, "chapter_number"), Null))
      || !StrictEquals(d.status, Coalesce(Js.Get(row, "status"), Null))
      || !StrictEquals(d.idManuscript, Coalesce(Js.Get(row, "id_manuscript"), Null))
  }

  /** A freshly opened editor, new or editing a row, has no unsaved changes. */
  lemma FreshFormIsSaved(initialData: Option<Record>, now: string)
    requires initialData.Some? ==> RowTyped(initialData.value)
    ensures !Unsaved(InitialData(initialData, now), initialData)
  {
    if initialData.None? {
      assert Trim("") == "";
    }
  }

  /** On a new chapter, a non-blank title alone is an unsaved change. */
  lemma NewChapterTitleIsChange(now: string, title: string)
    requires !IsBlank(title)
    ensures Unsaved(InitialData(None, now).With(NameChapter, Str(title)), None)
  {
    assert Trim(title) != "";
  }

  /** On a new chapter, a word count of 0 is not a change. */
  lemma NewChapterZeroCountIsNoChange(now: string)
    ensures !Unsaved(InitialData(None, now).With(WordCount, Num(0)), None)
  {
    assert Trim("") == "";
  }

  /**
   * Choosing, in the manuscript select, the manuscript the row already has
   * still counts as a change: the select yields the id as a string and `!==`
   * compares it with the row's number.
   */
  lemma ReselectedManuscriptIsChange(row: Record, now: string, id: int)
    requires RowTyped(row) && Js.Get(row, "id_manuscript") == Num(id)
    ensures Unsaved(InitialData(Some(row), now).With(IdManuscript, NormalizeInputValue(SelectBox(IntToString(id)))), Some(row))
  {
    IntToStringShape(id);
  }

  /** The `id_user` a payload carries: `baseData.id_user!`, undefined when there is none. */
  function UserValue(userId: Option<string>): (r: Value)
    ensures userId.Some? ==> r == Str(userId.value)
    ensures userId.None? ==> r.Undef?
  {
    if userId.Some? then Str(userId.value) else Undef
  }

  /** A chapter insert or update payload; `None` is a key the object does not have. */
  datatype ChapterPayload = ChapterPayload(
    nameChapter: string, idUser: Option<Value>, wordCount: Option<int>, summary: Option<string>,
    status: Option<string>, chapterNumber: Option<Value>, idManuscript: Option<Value>)

  /**
   * `buildChapterData`: the title given, the user on insert only, and each
   * optional field only when it has a value (a cleaned string, a validated
   * count, a present number or id).
   */
  predicate IsChapterPayload(p: ChapterPayload, d: ChapterData, baseName: string, userId: Option<string>, isUpdate: bool) {
    && p.nameChapter == baseName
    && p.idUser == (if isUpdate then None else Some(UserValue(userId)))
    && p.wordCount == ValidateWordCount(d.wordCount)
    && p.summary == CleanOptionalField(d.summary)
    && p.status == CleanOptionalField(d.status)
    && p.chapterNumber == Present(d.chapterNumber)
    && p.idManuscript == Present(d.idManuscript)
  }

  /** An insert payload is the update payload plus the user id. */
  lemma InsertIsUpdateWithUser(p: ChapterPayload, q: ChapterPayload, d: ChapterData, baseName: string, userId: string)
    requires IsChapterPayload(p, d, baseName, None, true)
    requires IsChapterPayload(q, d, baseName, Some(userId), false)
    ensures q == p.(idUser := Some(Str(userId)))
  {
  }

  /**
   * With a user, a payload never sends `null` or `undefined`; the texts it sends
   * are trimmed and non-empty and the count is not negative.
   */
  lemma PayloadOmitsEmptyValues(p: ChapterPayload, d: ChapterData, baseName: string, userId: Option<string>, isUpdate: bool)
    requires IsChapterPayload(p, d, baseName, userId, isUpdate)
    requires isUpdate || userId.Some?
    ensures p.idUser.Some? ==> !IsNullish(p.idUser.value)
    ensures p.chapterNumber.Some? ==> !IsNullish(p.chapterNumber.value)
    ensures p.idManuscript.Some? ==> !IsNullish(p.idManuscript.value)
    ensures p.wordCount.Some? ==> p.wordCount.value >= 0
    ensures p.summary.Some? ==> p.summary.value != "" && Trim(p.summary.value) == p.summary.value
    ensures p.status.Some? ==> p.status.value != "" && Trim(p.status.value) == p.status.value
  {
    if p.summary.Some? {
      TrimIdempotent(d.summary.s);
    }
    if p.status.Some? {
      TrimIdempotent(d.status.s);
    }
  }

  class ChapterForm {
    var formData: ChapterData
    var fieldErrors: map<string, string>
    var touched: set<string>
    var isSubmitting: bool
    var error: Option<string>
    /** The row being edited; `None` for a new chapter. */
    const initial: Option<Record>

    ghost predicate Valid()
      reads this
    {
      Typed(formData) && (initial.Some? ==> RowTyped(initial.value))
    }

    /** `now` stands for `new Date().toISOString()`. */
    constructor (initialData: Option<Record>, now: string)
      requires initialData.Some? ==> RowTyped(initialData.value)
      ensures Valid()
      ensures initial == initialData && formData == InitialData(initialData, now)
      ensures fieldErrors == map[] && touched == {} && !isSubmitting && error.None?
    {
      var data := InitialData(initialData, now);
      initial := initialData;
      formData := data;
      fieldErrors := map[];
      touched := {};
      isSubmitting := false;
      error := None;
    }

    function HasUnsavedChanges(): bool
      reads this
      requires Valid()
    {
      Unsaved(formData, initial)
    }

    /** What the leave-page guard is given: unsaved changes while not submitting. */
    function GuardsNavigation(): (r: bool)
      reads this
      requires Valid()
      ensures r ==> !isSubmitting
    {
      HasUnsavedChanges() && !isSubmitting
    }

    /** `validateField`: records the outcome under the field's name in `fieldErrors` and reports it. */
    method ValidateField(f: Field, value: Value) returns (ok: bool)
      requires RuleApplies(f, value)
      modifies this`fieldErrors
      ensures ok <==> Rule(f, value).Valid?
      ensures fieldErrors == ErrorsAfter(old(fieldErrors), f.Key(), Rule(f, value))
    {
      var validation := Rule(f, value);
      fieldErrors := ErrorsAfter(fieldErrors, f.Key(), validation);
      ok := validation.Valid?;
    }

    /** `handleInputChange`: stores the normalised value and revalidates a touched field. */
    method HandleInputChange(f: Field, e: Element)
      requires Valid() && RenderedAs(f, e)
      modifies this`formData, this`fieldErrors
      ensures Valid()
      ensures formData == old(formData).With(f, NormalizeInputValue(e))
      ensures f.Key() in touched ==> fieldErrors == ErrorsAfter(old(fieldErrors), f.Key(), Rule(f, NormalizeInputValue(e)))
      ensures f.Key() !in touched ==> fieldErrors == old(fieldErrors)
    {
      var value := NormalizeInputValue(e);
      InputKeepsTyped(formData, f, e);
      formData := formData.With(f, value);
      if f.Key() in touched {
        var _ := ValidateField(f, value);
      }
    }

    /** `handleBlur`: marks the field touched and validates its current value. */
    method HandleBlur(f: Field)
      requires Valid()
      modifies this`touched, this`fieldErrors
      ensures touched == old(touched) + {f.Key()}
      ensures fieldErrors == ErrorsAfter(old(fieldErrors), f.Key(), Rule(f, formData.Get(f)))
    {
      touched := touched + {f.Key()};
      var _ := ValidateField(f, formData.Get(f));
    }

    /** `buildChapterData`, for an update or, with the user's id, an insert. */
    method BuildChapterData(baseName: string, userId: Option<string>, isUpdate: bool) returns (payload: ChapterPayload)
      ensures IsChapterPayload(payload, formData, baseName, userId, isUpdate)
    {
      var wordCount := ValidateWordCount(formData.wordCount);
      var summary := CleanOptionalField(formData.summary);
      var status := CleanOptionalField(formData.status);
      payload := ChapterPayload(baseName, None, None, None, None, None, None);
      if !isUpdate {
        payload := payload.(idUser := Some(UserValue(userId)));
      }
      assert payload.idUser == (if isUpdate then None else Some(UserValue(userId)));
      if wordCount.Some? {
        payload := payload.(wordCount := wordCount);
      }
      assert payload.wordCount == wordCount;
      if summary.Some? {
        payload := payload.(summary := summary);
      }
      assert payload.summary == summary;
      if status.Some? {
        payload := payload.(status := status);
      }
      assert payload.status == status;
      if !IsNullish(formData.chapterNumber) {
        payload := payload.(chapterNumber := Some(formData.chapterNumber));
      }
      assert payload.chapterNumber == Present(formData.chapterNumber);
      if !IsNullish(formData.idManuscript) {
        payload := payload.(idManuscript := Some(formData.idManuscript));
      }
    }

    /**
     * The validation pass of `handleSubmit`: validates each field in order and
     * marks the three touched (React applies the three `add`s together).
     */
    method ValidateAll() returns (isValid: bool)
      requires Valid()
      modifies this`fieldErrors, this`touched
      ensures touched == old(touched) + {"name_chapter", "word_count", "summary"}
      ensures fieldErrors == ErrorsAfterAll(old(fieldErrors), Keys(Fields), Results(formData))
      ensures forall i :: 0 <= i < |Fields| ==> (Fields[i].Key() in fieldErrors <==> Results(formData)[i].Invalid?)
      ensures isValid <==> Submittable(formData)
    {
      isValid := true;
      for i := 0 to |Fields|
        invariant touched == old(touched)
        invariant fieldErrors == ErrorsAfterAll(old(fieldErrors), Keys(Fields)[..i], Results(formData)[..i])
        invariant isValid == AllPass(Results(formData)[..i])
      {
        var field := Fields[i];
        ResultAt(formData, i);
        var fieldValid := ValidateField(field, formData.Get(field));
        assert fieldErrors == ErrorsAfterAll(old(fieldErrors), Keys(Fields)[..i + 1], Results(formData)[..i + 1]) by {
          ValidationStep(old(fieldErrors), formData, i);
        }
        AllPassSnoc(Results(formData), i);
        if !fieldValid {
          isValid := false;
        }
      }
      touched := touched + {"name_chapter", "word_count", "summary"};
      SubmitLoopDone(old(fieldErrors), formData);
    }

    /** Whether the submit updates the row being edited: `initialData?.id_chapter` is truthy. */
    predicate IsUpdate() {
      initial.Some? && Truthy(Js.Get(initial.value, "id_chapter"))
    }

    /**
     * The `try`/`catch`/`finally` of `handleSubmit`: needs a user, then sends an
     * update or an insert; the failure message ends in `error` and the submit
     * flag is cleared.
     */
    method Send(auth: AuthResult, save: SaveResult) returns (request: Request<ChapterPayload>, outcome: Outcome)
      requires Valid()
      modifies this`isSubmitting, this`error
      ensures !isSubmitting && error == ErrorOf(outcome) && !outcome.Blocked?
      ensures auth.NoUser? ==> request == NoRequest && outcome == Rejected("No user authenticated")
      ensures auth.Authenticated? ==> outcome == SaveOutcome(save, "Error saving chapter")
      ensures auth.Authenticated? ==> IsSaveRequest(request, auth.userId)
    {
      isSubmitting := true;
      if auth.NoUser? {
        request := NoRequest;
        outcome := Rejected("No user authenticated");
      } else {
        request := SaveRequest(auth.userId);
        outcome := SaveOutcome(save, "Error saving chapter");
      }
      error := ErrorOf(outcome);
      isSubmitting := false;
    }

    /**
     * What the `try` block sends for a signed-in user: an update of the edited
     * row by its id without a user id, or an insert carrying the user id; the
     * name is the trimmed form name.
     */
    ghost predicate IsSaveRequest(request: Request<ChapterPayload>, userId: string)
      reads this`formData
    {
      && formData.nameChapter.Str?
      && (IsUpdate() ==>
            request.Update? && request.id == Js.Get(initial.value, "id_chapter")
            && IsChapterPayload(request.payload, formData, Trim(formData.nameChapter.s), None, true))
      && (!IsUpdate() ==>
            request.Insert? && IsChapterPayload(request.payload, formData, Trim(formData.nameChapter.s), Some(userId), false))
    }

    /** The request the `try` block sends for a signed-in user: an update of the edited row or an insert. */
    method SaveRequest(userId: string) returns (request: Request<ChapterPayload>)
      requires Valid()
      ensures IsSaveRequest(request, userId)
    {
      var baseName := Trim(formData.nameChapter.s);
      if IsUpdate() {
        var payload := BuildChapterData(baseName, None, true);
        request := Update(Js.Get(initial.value, "id_chapter"), payload);
      } else {
        var payload := BuildChapterData(baseName, Some(userId), false);
        request := Insert(payload);
      }
    }

    /** `handleSubmit`: clears the banner, validates, and sends only when every field passes. */
    method Submit(auth: AuthResult, save: SaveResult) returns (request: Request<ChapterPayload>, outcome: Outcome)
      requires Valid()
      modifies this`fieldErrors, this`touched, this`isSubmitting, this`error
      ensures Valid()
      ensures touched == old(touched) + {"name_chapter", "word_count", "summary"}
      ensures fieldErrors == ErrorsAfterAll(old(fieldErrors), Keys(Fields), Results(formData))
      ensures forall i :: 0 <= i < |Fields| ==> (Fields[i].Key() in fieldErrors <==> Results(formData)[i].Invalid?)
      ensures outcome.Blocked? <==> !Submittable(formData)
      ensures outcome.Blocked? ==> request == NoRequest && isSubmitting == old(isSubmitting) && error.None?
      ensures !outcome.Blocked? ==> !isSubmitting && error == ErrorOf(outcome)
      ensures !outcome.Blocked? && auth.NoUser? ==> request == NoRequest && outcome == Rejected("No user authenticated")
      ensures !outcome.Blocked? && auth.Authenticated? ==> outcome == SaveOutcome(save, "Error saving chapter")
      ensures !outcome.Blocked? && auth.Authenticated? ==> IsSaveRequest(request, auth.userId)
    {
      error := None;
      var isValid := ValidateAll();
      if !isValid {
        request := NoRequest;
        outcome := Blocked;
        return;
      }
      request, outcome := Send(auth, save);
    }
  }
}
