/**
 * The manuscript editor's state (src/components/manuscripts/hooks/useManuscriptForm.ts):
 * the form data, the submit flag and the banner error. Unlike the other three
 * editors it validates nothing before the repository call; its own input
 * normalisation turns an empty number into 0 and trims a `<select>` as well as
 * a `<textarea>`. The auth lookup, the clock and the repository call are inputs
 * to `Submit`.
 */
module ManuscriptFormHook {
  import opened Wrappers
  import opened Js
  import opened Text
  import opened FormHelpers
  import opened FormCommon

  /** A `manuscript` row as the database types it. */
  predicate RowTyped(row: Record) {
    && Js.Get(row, "title").Str?
    && Js.Get(row, "id_manuscript").Num?
    && NullableColumn(Js.Get(row, "word_count"), false)
    && NullableColumn(Js.Get(row, "summary"), true)
    && NullableColumn(Js.Get(row, "date_created"), true)
    && NullableColumn(Js.Get(row, "picture"), true)
    && NullableColumn(Js.Get(row, "id_user"), true)
    && NullableColumn(Js.Get(row, "genre"), true)
    && NullableColumn(Js.Get(row, "status"), true)
    && NullableColumn(Js.Get(row, "target_audience"), true)
  }

  /** The editor's fields, each known by its `name` attribute. */
  datatype Field = Title | Summary | DateCreated | Picture | IdUser | Genre | Status | WordCount | TargetAudience
  {
    function Key(): string {
      match this
      case Title => "title"
      case Summary => "summary"
      case DateCreated => "date_created"
      case Picture => "picture"
      case IdUser => "id_user"
      case Genre => "genre"
      case Status => "status"
      case WordCount => "word_count"
      case TargetAudience => "target_audience"
    }
  }

  /** The editor's form data: a manuscript insert without its id. */
  datatype ManuscriptData = ManuscriptData(
    title: Value, summary: Value, dateCreated: Value, picture: Value, idUser: Value,
    genre: Value, status: Value, wordCount: Value, targetAudience: Value)
  {
    /** `formData[name]`. */
    function Get(f: Field): Value {
      match f
      case Title => title
      case Summary => summary
      case DateCreated => dateCreated
      case Picture => picture
      case IdUser => idUser
      case Genre => genre
      case Status => status
      case WordCount => wordCount
      case TargetAudience => targetAudience
    }

    /** `{ ...prev, [name]: val }`. */
    function With(f: Field, value: Value): (d: ManuscriptData)
      ensures d.Get(f) == value
      ensures forall g :: g != f ==> d.Get(g) == Get(g)
    {
      match f
      case Title => this.(title := value)
      case Summary => this.(summary := value)
      case DateCreated => this.(dateCreated := value)
      case Picture => this.(picture := value)
      case IdUser => this.(idUser := value)
      case Genre => this.(genre := value)
      case Status => this.(status := value)
      case WordCount => this.(wordCount := value)
      case TargetAudience => this.(targetAudience := value)
    }
  }

  /**
   * What the form's fields can hold: the title is always a string and the word
   * count always a number (never NaN); the optional texts are strings or null.
   */
  predicate Typed(d: ManuscriptData) {
    && d.title.Str?
    && d.wordCount.Num?
    && StringOrNull(d.summary)
    && StringOrNull(d.picture)
    && StringOrNull(d.genre)
    && StringOrNull(d.status)
    && StringOrNull(d.targetAudience)
  }

  /**
   * The value `handleInputChange` stores: a file input's first file name or
   * null; a number input's number, or 0 when it is empty or not a number; any
   * other input's raw text; a `<select>` or `<textarea>`'s trimmed text, or
   * null when that is empty.
   */
  function InputValue(e: Element): (r: Value)
    ensures e.Input? && e.inputType == "number" ==>
      r == (if NormalizeInputValue(e).Null? then Num(0) else NormalizeInputValue(e))
    ensures e.Input? && e.inputType != "number" ==> r == NormalizeInputValue(e)
    ensures e.TextArea? ==> r == NormalizeInputValue(e)
    ensures e.SelectBox? ==> r == NormalizeInputValue(TextArea(e.value))
  {
    match e
    case Input(inputType, value, fileNames) =>
      if inputType == "file" then
        if fileNames == [] then Null else Str(fileNames[0])
      else if inputType == "number" then
        var num := StringToNumber(value);
        if value == "" || num.NaN? then Num(0) else num
      else Str(value)
    case SelectBox(value) =>
      var trimmed := Trim(value);
      if trimmed == "" then Null else Str(trimmed)
    case TextArea(value) =>
      var trimmed := Trim(value);
      if trimmed == "" then Null else Str(trimmed)
  }

  /** A number input always stores a number: a typed integer as itself, anything else as 0. */
  lemma NumberInputStoresNumber(value: string)
    ensures InputValue(Input("number", value, [])).Num?
    ensures value == "" || StringToNumber(value).NaN? ==> InputValue(Input("number", value, [])) == Num(0)
    ensures forall n :: value == IntToString(n) ==> InputValue(Input("number", value, [])) == Num(n)
  {
    forall n | value == IntToString(n)
      ensures InputValue(Input("number", value, [])) == Num(n)
    {
      NumberInputRoundTrip(n);
    }
  }

  /** The element each field is rendered with in the manuscript editor; the other fields have none. */
  predicate RenderedAs(f: Field, e: Element) {
    match e
    case Input(inputType, _, _) =>
      ((f == Title || f == TargetAudience) && inputType == "text")
      || (f == Picture && inputType == "file")
      || (f == WordCount && inputType == "number")
    case SelectBox(_) => f == Genre || f == Status
    case TextArea(_) => f == Summary
  }

  /** Storing what a rendered element yields keeps the form typed. */
  lemma InputKeepsTyped(d: ManuscriptData, f: Field, e: Element)
    requires Typed(d) && RenderedAs(f, e)
    ensures Typed(d.With(f, InputValue(e)))
  {
    if e.Input? && e.inputType == "number" {
      NumberInputStoresNumber(e.value);
    }
  }

  /**
   * The initial form data: the row's values, with `''`, `null`, the current
   * time, `'Draft'` and 0 for what the row lacks; a new manuscript starts as a
   * draft of 0 words.
   */
  function InitialData(initialData: Option<Record>, now: string): (d: ManuscriptData)
    requires initialData.Some? ==> RowTyped(initialData.value)
    ensures Typed(d)
    ensures initialData.None? ==>
      d == ManuscriptData(Str(""), Null, Str(now), Null, Str(""), Null, Str("Draft"), Num(0), Null)
    ensures initialData.Some? ==> d.title == Js.Get(initialData.value, "title")
  {
    var row := initialData.GetOr(map[]);
    ManuscriptData(
      title := Coalesce(Js.Get(row, "title"), Str("")),
      summary := Coalesce(Js.Get(row, "summary"), Null),
      dateCreated := Coalesce(Js.Get(row, "date_created"), Str(now)),
      picture := Coalesce(Js.Get(row, "picture"), Null),
      idUser := Coalesce(Js.Get(row, "id_user"), Str("")),
      genre := Coalesce(Js.Get(row, "genre"), Null),
      status := Coalesce(Js.Get(row, "status"), Str("Draft")),
      wordCount := Coalesce(Js.Get(row, "word_count"), Num(0)),
      targetAudience := Coalesce(Js.Get(row, "target_audience"), Null))
  }

  /** The update's `status`: `formData.status ?? 'Draft'`. */
  function UpdateStatus(status: Value): (r: Value)
    ensures IsNullish(status) ==> r == Str("Draft")
    ensures !IsNullish(status) ==> r == status
  {
    Coalesce(status, Str("Draft"))
  }

  /** The insert's `status`: `formData.status || 'Draft'`. */
  function InsertStatus(status: Value): (r: Value)
    ensures Truthy(status) ==> r == status
    ensures !Truthy(status) ==> r == Str("Draft")
  {
    if Truthy(status) then status else Str("Draft")
  }

  /**
   * The two defaults agree on every status the form can hold except `''`,
   * which an update sends as it is and an insert replaces by `'Draft'`.
   */
  lemma StatusDefaultsAgree(status: Value)
    requires StringOrNull(status)
    ensures UpdateStatus(status).Str? && InsertStatus(status).Str?
    ensures UpdateStatus(status) == InsertStatus(status) <==> status != Str("")
  {
  }

  /**
   * A manuscript insert or update payload; `None` is a key the object does not
   * have. `word_count` is kept as a JavaScript value so that the insert's NaN
   * guard can be stated.
   */
  datatype ManuscriptPayload = ManuscriptPayload(
    title: string, idUser: Option<string>, dateCreated: Option<string>, status: Value, wordCount: Value,
    summary: Option<string>, picture: Option<string>, genre: Option<string>, targetAudience: Option<string>)

  /**
   * The payload of `handleSubmit`: the trimmed title, the status with its
   * default, the word count through `validateWordCount` (0 when there is none),
   * each optional text only when it is non-empty after trimming, and, on
   * insert, the user and the creation time.
   */
  predicate IsManuscriptPayload(p: ManuscriptPayload, d: ManuscriptData, userId: string, now: string, isUpdate: bool)
    requires Typed(d)
  {
    && p.title == Trim(d.title.s)
    && p.idUser == (if isUpdate then None else Some(userId))
    && p.dateCreated == (if isUpdate then None else Some(now))
    && p.status == (if isUpdate then UpdateStatus(d.status) else InsertStatus(d.status))
    && p.wordCount == Num(ValidateWordCountWithDefault(d.wordCount))
    && p.summary == CleanOptionalField(d.summary)
    && p.picture == CleanOptionalField(d.picture)
    && p.genre == CleanOptionalField(d.genre)
    && p.targetAudience == CleanOptionalField(d.targetAudience)
  }

  /**
   * A payload never carries NaN, null or an empty text: the word count is a
   * non-negative number (so the insert's NaN guard never throws), the status a
   * string, and each optional text trimmed and non-empty.
   */
  lemma PayloadOmitsEmptyValues(p: ManuscriptPayload, d: ManuscriptData, userId: string, now: string, isUpdate: bool)
    requires Typed(d) && IsManuscriptPayload(p, d, userId, now, isUpdate)
    ensures p.wordCount.Num? && p.wordCount.n >= 0 && !p.wordCount.NaN?
    ensures p.status.Str?
    ensures p.summary.Some? ==> p.summary.value != "" && Trim(p.summary.value) == p.summary.value
    ensures p.picture.Some? ==> p.picture.value != "" && Trim(p.picture.value) == p.picture.value
    ensures p.genre.Some? ==> p.genre.value != "" && Trim(p.genre.value) == p.genre.value
    ensures p.targetAudience.Some? ==> p.targetAudience.value != "" && Trim(p.targetAudience.value) == p.targetAudience.value
  {
    StatusDefaultsAgree(d.status);
    if p.summary.Some? {
      TrimIdempotent(d.summary.s);
    }
    if p.picture.Some? {
      TrimIdempotent(d.picture.s);
    }
    if p.genre.Some? {
      TrimIdempotent(d.genre.s);
    }
    if p.targetAudience.Some? {
      TrimIdempotent(d.targetAudience.s);
    }
  }

  /**
   * An insert payload is the update payload plus the user and the creation
   * time, with the status differing only for a status of `''`.
   */
  lemma InsertIsUpdateWithUser(p: ManuscriptPayload, q: ManuscriptPayload, d: ManuscriptData, userId: string, now: string)
    requires Typed(d)
    requires IsManuscriptPayload(p, d, userId, now, true)
    requires IsManuscriptPayload(q, d, userId, now, false)
    ensures d.status != Str("") ==> q == p.(idUser := Some(userId), dateCreated := Some(now))
    ensures d.status == Str("") ==> p.status == Str("") && q == p.(idUser := Some(userId), dateCreated := Some(now), status := Str("Draft"))
  {
    StatusDefaultsAgree(d.status);
  }

  /** A new manuscript is inserted as a draft of 0 words unless the form changed them. */
  lemma NewFormInsertsDraft(p: ManuscriptPayload, userId: string, now: string)
    requires IsManuscriptPayload(p, InitialData(None, now), userId, now, false)
    ensures p.status == Str("Draft") && p.wordCount == Num(0)
    ensures p.title == "" && p.summary.None? && p.picture.None? && p.genre.None? && p.targetAudience.None?
  {
    assert Trim("") == "";
  }

  /** The insert's guard: `isNaN(insertData.word_count)`. */
  predicate WordCountIsNaN(p: ManuscriptPayload) {
    p.wordCount.NaN?
  }

  class ManuscriptForm {
    var formData: ManuscriptData
    var isSubmitting: bool
    var error: Option<string>
    /** The row being edited; `None` for a new manuscript. */
    const initial: Option<Record>

    ghost predicate Valid()
      reads this
    {
      Typed(formData) && (initial.Some? ==> RowTyped(initial.value))
    }

    /** `now` stands for `new Date().toISOString()`. */
    constructor (initialData: Option<Record>, now: string)
      requires initialData.Some? ==> RowTyped(initialData.value)
      ensures Valid()
      ensures initial == initialData && formData == InitialData(initialData, now)
      ensures !isSubmitting && error.None?
    {
      var data := InitialData(initialData, now);
      initial := initialData;
      formData := data;
      isSubmitting := false;
      error := None;
    }

    /** `handleInputChange`: stores the normalised value under the element's name, and nothing else. */
    method HandleInputChange(f: Field, e: Element)
      requires Valid() && RenderedAs(f, e)
      modifies this`formData
      ensures Valid()
      ensures formData == old(formData).With(f, InputValue(e))
    {
      var value := InputValue(e);
      InputKeepsTyped(formData, f, e);
      formData := formData.With(f, value);
    }

    /** Whether the submit updates the row being edited: `initialData?.id_manuscript` is truthy. */
    predicate IsUpdate() {
      initial.Some? && Truthy(Js.Get(initial.value, "id_manuscript"))
    }

    /** The update object, or with the user and the creation time the insert object, of `handleSubmit`. */
    method BuildPayload(userId: string, now: string, isUpdate: bool) returns (payload: ManuscriptPayload)
      requires Valid()
      ensures IsManuscriptPayload(payload, formData, userId, now, isUpdate)
    {
      var wordCount := ValidateWordCountWithDefault(formData.wordCount);
      var summary := CleanOptionalField(formData.summary);
      var picture := CleanOptionalField(formData.picture);
      var genre := CleanOptionalField(formData.genre);
      var targetAudience := CleanOptionalField(formData.targetAudience);
      if isUpdate {
        payload := ManuscriptPayload(Trim(formData.title.s), None, None, UpdateStatus(formData.status), Num(wordCount),
          None, None, None, None);
      } else {
        payload := ManuscriptPayload(Trim(formData.title.s), Some(userId), Some(now), InsertStatus(formData.status), Num(wordCount),
          None, None, None, None);
      }
      if summary.Some? {
        payload := payload.(summary := summary);
      }
      assert payload.summary == summary;
      if picture.Some? {
        payload := payload.(picture := picture);
      }
      assert payload.picture == picture;
      if genre.Some? {
        payload := payload.(genre := genre);
      }
      assert payload.genre == genre;
      if targetAudience.Some? {
        payload := payload.(targetAudience := targetAudience);
      }
    }

    /**
     * `handleSubmit`: clears the banner and raises the submit flag, needs a
     * user, then sends an update or an insert without validating anything; the
     * failure message ends in `error` and the flag is cleared. The form data is
     * left as it was. `now` stands for `new Date().toISOString()`.
     */
    method Submit(auth: AuthResult, save: SaveResult, now: string) returns (request: Request<ManuscriptPayload>, outcome: Outcome)
      requires Valid()
      modifies this`isSubmitting, this`error
      ensures !isSubmitting && error == ErrorOf(outcome) && !outcome.Blocked?
      ensures auth.NoUser? ==> request == NoRequest && outcome == Rejected("No user authenticated")
      ensures auth.Authenticated? ==> request != NoRequest && outcome == SaveOutcome(save, "Error guardando el manuscrito")
      ensures auth.Authenticated? && IsUpdate() ==>
        request.Update? && request.id == Js.Get(initial.value, "id_manuscript")
        && IsManuscriptPayload(request.payload, formData, auth.userId, now, true)
      ensures auth.Authenticated? && !IsUpdate() ==>
        request.Insert? && IsManuscriptPayload(request.payload, formData, auth.userId, now, false)
    {
      error := None;
      isSubmitting := true;
      if auth.NoUser? {
        request := NoRequest;
        outcome := Rejected("No user authenticated");
      } else if IsUpdate() {
        var payload := BuildPayload(auth.userId, now, true);
        request := Update(Js.Get(initial.value, "id_manuscript"), payload);
        outcome := SaveOutcome(save, "Error guardando el manuscrito");
      } else {
        var payload := BuildPayload(auth.userId, now, false);
        PayloadOmitsEmptyValues(payload, formData, auth.userId, now, false);
        request := Insert(payload);
        if WordCountIsNaN(payload) {
          outcome := Rejected("word_count no puede ser NaN");
        } else {
          outcome := SaveOutcome(save, "Error guardando el manuscrito");
        }
      }
      error := ErrorOf(outcome);
      isSubmitting := false;
    }
  }
}
