/**
 * The RSVP resource route (app/routes/resources+/rsvp.tsx): the form schema that
 * turns raw form fields into a typed value or per-field issues, and the action
 * that answers a submission with "error", "idle" or "success". The action
 * persists nothing; its whole effect is the response it returns.
 */
module RsvpAction {
  import opened Wrappers
  import opened Decimal
  import opened Records

  /** Raw form data: field name to submitted text; an absent key is a missing field. */
  type FormData = map<string, string>

  const FirstNameField: string := "firstName"
  const GuestsField: string := "guests"
  const LastNameField: string := "lastName"
  const MessageField: string := "message"
  const PartyIdField: string := "partyId"
  const ResponseField: string := "response"

  const SchemaFields: set<string> :=
    {FirstNameField, GuestsField, LastNameField, MessageField, PartyIdField, ResponseField}

  /** The guest count used when the field is missing. */
  const DefaultGuests: string := "1"

  const FirstNameRequired: string := "First name is required."
  const LastNameRequired: string := "Last name is required."

  /** The intent of a plain submit; other intents come from validate-only round trips. */
  const SubmitIntent: string := "submit"

  /**
   * A validation issue: a missing field, a string shorter than its minimum (with
   * the schema's message), a value that does not coerce to a number, or a value
   * outside the response enum.
   */
  datatype Issue = Required | TooSmall(message: string) | NotANumber | InvalidEnum(received: string)

  type FieldErrors = map<string, seq<Issue>>

  /** The typed value of a valid submission. */
  datatype RsvpForm = RsvpForm(
    firstName: string, guests: int, lastName: string, message: Option<string>,
    partyId: string, response: ResponseType)

  // ---------------------------------------------------------------------------
  // Number coercion

  /** The decimal rendering of an integer, with a minus sign when negative. */
  function RenderInt(n: int): string {
    if n < 0 then "-" + Show(-n) else Show(n)
  }

  /**
   * Numeric coercion of a form string, on the strings this model covers: the
   * empty string is 0, an optional minus sign followed by decimal digits is that
   * integer, and anything else is not a number. Every integer survives being
   * rendered and coerced back.
   */
  function CoerceNumber(s: string): (r: Option<int>)
    ensures forall n :: s == RenderInt(n) ==> r == Some(n)
  {
    RenderedDigits(s);
    if s == "" then Some(0)
    else if s[0] == '-' && |s| > 1 && AllDigits(s[1..]) then Some(-(ParseDigits(s[1..]) as int))
    else if AllDigits(s) then Some(ParseDigits(s))
    else None
  }

  /** The shape of an integer's rendering: digits, after a minus sign when negative. */
  lemma RenderedDigits(s: string)
    ensures forall n :: s == RenderInt(n) ==> (s != [] &&
      if n < 0 then s[0] == '-' && |s| > 1 && AllDigits(s[1..]) && ParseDigits(s[1..]) == -n
      else s[0] != '-' && AllDigits(s) && ParseDigits(s) == n)
  {
    forall n | s == RenderInt(n)
      ensures s != [] &&
        if n < 0 then s[0] == '-' && |s| > 1 && AllDigits(s[1..]) && ParseDigits(s[1..]) == -n
        else s[0] != '-' && AllDigits(s) && ParseDigits(s) == n
    {
      if n < 0 {
        assert s[1..] == Show(-n);
        ParseShow(-n);
      } else {
        ParseShow(n);
        assert IsDigit(s[0]);
      }
    }
  }

  // ---------------------------------------------------------------------------
  // Field rules

  /** A required string with a minimum length of one and a custom message. */
  function NonEmptyIssues(data: FormData, field: string, message: string): seq<Issue> {
    if field !in data then [Required]
    else if |data[field]| < 1 then [TooSmall(message)]
    else []
  }

  /** The guests field: defaults to "1" when missing, then must coerce to a number. */
  function GuestsText(data: FormData): string {
    if GuestsField in data then data[GuestsField] else DefaultGuests
  }

  function GuestsIssues(data: FormData): seq<Issue> {
    if CoerceNumber(GuestsText(data)).None? then [NotANumber] else []
  }

  function ResponseIssues(data: FormData): seq<Issue> {
    if ResponseField !in data then [Required]
    else if ParseResponse(data[ResponseField]).None? then [InvalidEnum(data[ResponseField])]
    else []
  }

  /**
   * The issues the schema finds in one field; `lastNameMessage` is the message of
   * the last-name minimum-length rule.
   */
  function FieldIssues(data: FormData, lastNameMessage: string, field: string): seq<Issue> {
    if field == FirstNameField then NonEmptyIssues(data, FirstNameField, FirstNameRequired)
    else if field == LastNameField then NonEmptyIssues(data, LastNameField, lastNameMessage)
    else if field == GuestsField then GuestsIssues(data)
    else if field == PartyIdField then (if PartyIdField in data then [] else [Required])
    else if field == ResponseField then ResponseIssues(data)
    else []
  }

  predicate FieldValid(data: FormData, lastNameMessage: string, field: string) {
    FieldIssues(data, lastNameMessage, field) == []
  }

  /**
   * The schema applied to form data: every field is checked, the issues of all
   * failing fields are collected, and only a submission without issues yields a
   * value. Keys outside the schema are ignored.
   */
  function ValidateWith(data: FormData, lastNameMessage: string): (r: Result<RsvpForm, FieldErrors>)
    ensures r.Ok? <==> forall f :: f in SchemaFields ==> FieldValid(data, lastNameMessage, f)
    ensures r.Err? ==> forall f :: f in r.error <==> f in SchemaFields && !FieldValid(data, lastNameMessage, f)
  {
    if forall f :: f in SchemaFields ==> FieldValid(data, lastNameMessage, f) then
      assert FieldValid(data, lastNameMessage, GuestsField);
      assert FieldValid(data, lastNameMessage, ResponseField);
      Ok(RsvpForm(
        data[FirstNameField],
        CoerceNumber(GuestsText(data)).value,
        data[LastNameField],
        if MessageField in data then Some(data[MessageField]) else None,
        data[PartyIdField],
        ParseResponse(data[ResponseField]).value))
    else
      Err(Errors(data, lastNameMessage))
  }

  /** The issues of every failing field, keyed by field. */
  function Errors(data: FormData, lastNameMessage: string): (e: FieldErrors)
    ensures forall f :: f in e <==> f in SchemaFields && !FieldValid(data, lastNameMessage, f)
    ensures forall f :: f in e ==> e[f] == FieldIssues(data, lastNameMessage, f)
  {
    map f | f in SchemaFields && !FieldValid(data, lastNameMessage, f) :: FieldIssues(data, lastNameMessage, f)
  }

  /** The schema as written: the last-name rule reuses the first-name message. */
  function ValidateAsWritten(data: FormData): (r: Result<RsvpForm, FieldErrors>)
    ensures r.Ok? ==> r.value.firstName != "" && r.value.lastName != ""
  {
    ValidateWith(data, FirstNameRequired)
  }

  /**
   * The schema with the last-name rule carrying its own message. It accepts the
   * same submissions as the schema as written, with the same values; only the
   * message of an empty last name differs.
   */
  function Validate(data: FormData): (r: Result<RsvpForm, FieldErrors>)
    ensures r.Ok? ==> r.value.firstName != "" && r.value.lastName != ""
    ensures r.Ok? <==> ValidateAsWritten(data).Ok?
    ensures r.Ok? ==> r == ValidateAsWritten(data)
  {
    SameFieldsValid(data, LastNameRequired, FirstNameRequired);
    ValidateWith(data, LastNameRequired)
  }

  /** Whether a field passes does not depend on the message its issues carry. */
  lemma SameFieldsValid(data: FormData, m1: string, m2: string)
    ensures forall f :: FieldValid(data, m1, f) <==> FieldValid(data, m2, f)
  {
  }

  // ---------------------------------------------------------------------------
  // Properties of the schema

  /**
   * In either schema the first name must be present and non-empty; it is taken
   * verbatim.
   */
  lemma FirstNameRule(data: FormData, lastNameMessage: string)
    ensures FirstNameField !in data ==>
      ValidateWith(data, lastNameMessage).Err? && ValidateWith(data, lastNameMessage).error[FirstNameField] == [Required]
    ensures FirstNameField in data && data[FirstNameField] == "" ==>
      ValidateWith(data, lastNameMessage).Err? &&
      ValidateWith(data, lastNameMessage).error[FirstNameField] == [TooSmall("First name is required.")]
    ensures ValidateWith(data, lastNameMessage).Ok? ==>
      FirstNameField in data && data[FirstNameField] != "" &&
      ValidateWith(data, lastNameMessage).value.firstName == data[FirstNameField]
  {
  }

  /** The last name must be present and non-empty; it is taken verbatim. */
  lemma LastNameRule(data: FormData)
    ensures LastNameField !in data ==>
      Validate(data).Err? && Validate(data).error[LastNameField] == [Required]
    ensures LastNameField in data && data[LastNameField] == "" ==>
      Validate(data).Err? && Validate(data).error[LastNameField] == [TooSmall("Last name is required.")]
    ensures Validate(data).Ok? ==>
      LastNameField in data && data[LastNameField] != "" && Validate(data).value.lastName == data[LastNameField]
  {
  }

  /**
   * As written, an empty last name is reported with the first-name message, so a
   * form with a valid first name shows "First name is required." under the
   * last-name field.
   */
  lemma LastNameMessageAsWritten(data: FormData)
    requires LastNameField in data && data[LastNameField] == ""
    ensures ValidateAsWritten(data).Err?
    ensures ValidateAsWritten(data).error[LastNameField] == [TooSmall("First name is required.")]
  {
  }

  /**
   * Corrected schema: a minimum-length issue is only ever reported on a name field,
   * and its message names that field.
   */
  lemma MessagesNameTheirField(data: FormData, f: string, m: string)
    requires Validate(data).Err? && f in Validate(data).error
    requires TooSmall(m) in Validate(data).error[f]
    ensures (f == FirstNameField && m == "First name is required.") ||
            (f == LastNameField && m == "Last name is required.")
  {
    IssueMessages(data, LastNameRequired, f, m);
  }

  /**
   * In either schema a minimum-length issue is reported only on a name field: on
   * the first name with the first-name message, on the last name with the
   * last-name rule's message.
   */
  lemma IssueMessages(data: FormData, lastNameMessage: string, f: string, m: string)
    requires ValidateWith(data, lastNameMessage).Err? && f in ValidateWith(data, lastNameMessage).error
    requires TooSmall(m) in ValidateWith(data, lastNameMessage).error[f]
    ensures (f == FirstNameField && m == FirstNameRequired) || (f == LastNameField && m == lastNameMessage)
  {
    assert ValidateWith(data, lastNameMessage).error == Errors(data, lastNameMessage);
    assert TooSmall(m) in FieldIssues(data, lastNameMessage, f);
  }

  /** The as-written schema breaks that: the last-name issue carries the first-name message. */
  lemma AsWrittenMisnamesLastName()
    ensures var data := map[LastNameField := ""];
      && ValidateAsWritten(data).Err? && LastNameField in ValidateAsWritten(data).error
      && TooSmall("First name is required.") in ValidateAsWritten(data).error[LastNameField]
  {
    var data := map[LastNameField := ""];
    LastNameMessageAsWritten(data);
  }

  /**
   * In either schema a missing guest count validates as 1; any integer rendering
   * is accepted as that integer, with no lower bound (0 and negative counts pass);
   * a text that does not coerce is reported as not a number.
   */
  lemma GuestsRule(data: FormData, lastNameMessage: string, n: int)
    ensures GuestsField !in data ==> FieldValid(data, lastNameMessage, GuestsField)
    ensures GuestsField !in data && ValidateWith(data, lastNameMessage).Ok? ==>
      ValidateWith(data, lastNameMessage).value.guests == 1
    ensures GuestsField in data && data[GuestsField] == RenderInt(n) ==>
      FieldValid(data, lastNameMessage, GuestsField) &&
      (ValidateWith(data, lastNameMessage).Ok? ==> ValidateWith(data, lastNameMessage).value.guests == n)
    ensures GuestsField in data && CoerceNumber(data[GuestsField]).None? ==>
      ValidateWith(data, lastNameMessage).Err? && ValidateWith(data, lastNameMessage).error[GuestsField] == [NotANumber]
  {
    assert RenderInt(1) == "1";
  }

  /**
   * In either schema the response must name a member of the enum; NO passes
   * although the form offers only YES and MAYBE.
   */
  lemma ResponseRule(data: FormData, lastNameMessage: string)
    ensures ResponseField !in data ==>
      ValidateWith(data, lastNameMessage).Err? && ValidateWith(data, lastNameMessage).error[ResponseField] == [Required]
    ensures ResponseField in data ==>
      (FieldValid(data, lastNameMessage, ResponseField) <==> data[ResponseField] in {"YES", "MAYBE", "NO"})
    ensures ValidateWith(data, lastNameMessage).Ok? ==>
      ResponseField in data && ResponseName(ValidateWith(data, lastNameMessage).value.response) == data[ResponseField]
  {
    if ResponseField in data {
      ParseResponseName(YES, data[ResponseField]);
    }
  }

  /**
   * In either schema the message may be missing (no value) and is otherwise taken
   * verbatim; the party id must be present.
   */
  lemma MessageAndPartyRule(data: FormData, lastNameMessage: string)
    ensures FieldValid(data, lastNameMessage, MessageField)
    ensures ValidateWith(data, lastNameMessage).Ok? ==>
      ValidateWith(data, lastNameMessage).value.message == (if MessageField in data then Some(data[MessageField]) else None)
    ensures PartyIdField !in data ==>
      ValidateWith(data, lastNameMessage).Err? && ValidateWith(data, lastNameMessage).error[PartyIdField] == [Required]
    ensures ValidateWith(data, lastNameMessage).Ok? ==>
      PartyIdField in data && ValidateWith(data, lastNameMessage).value.partyId == data[PartyIdField]
  {
  }

  /** Keys outside the schema do not affect the outcome, whichever last-name message the schema uses. */
  lemma ExtraFieldsIgnored(data: FormData, extra: FormData, lastNameMessage: string)
    requires extra.Keys !! SchemaFields
    ensures ValidateWith(data + extra, lastNameMessage) == ValidateWith(data, lastNameMessage)
  {
    SchemaFieldsUnchanged(data, extra);
    SameSchemaFieldsAgree(data + extra, data, lastNameMessage);
  }

  /** Two form data agreeing on the schema's fields. */
  predicate AgreeOnSchema(d1: FormData, d2: FormData) {
    forall g :: g in SchemaFields ==> (g in d1 <==> g in d2) && (g in d1 ==> d1[g] == d2[g])
  }

  lemma SchemaFieldsUnchanged(data: FormData, extra: FormData)
    requires extra.Keys !! SchemaFields
    ensures AgreeOnSchema(data + extra, data)
  {
    forall g | g in SchemaFields
      ensures g in data + extra <==> g in data
      ensures g in data ==> (data + extra)[g] == data[g]
    {
      assert g !in extra;
    }
  }

  lemma SameFieldLookups(d1: FormData, d2: FormData)
    requires AgreeOnSchema(d1, d2)
    ensures FirstNameField in d1 <==> FirstNameField in d2
    ensures FirstNameField in d1 ==> d1[FirstNameField] == d2[FirstNameField]
    ensures LastNameField in d1 <==> LastNameField in d2
    ensures LastNameField in d1 ==> d1[LastNameField] == d2[LastNameField]
    ensures GuestsField in d1 <==> GuestsField in d2
    ensures GuestsField in d1 ==> d1[GuestsField] == d2[GuestsField]
    ensures MessageField in d1 <==> MessageField in d2
    ensures MessageField in d1 ==> d1[MessageField] == d2[MessageField]
    ensures PartyIdField in d1 <==> PartyIdField in d2
    ensures PartyIdField in d1 ==> d1[PartyIdField] == d2[PartyIdField]
    ensures ResponseField in d1 <==> ResponseField in d2
    ensures ResponseField in d1 ==> d1[ResponseField] == d2[ResponseField]
  {
    assert FirstNameField in SchemaFields && LastNameField in SchemaFields && GuestsField in SchemaFields;
    assert MessageField in SchemaFields && PartyIdField in SchemaFields && ResponseField in SchemaFields;
  }

  /** The schema reads nothing but its own fields. */
  lemma SameSchemaFieldsAgree(d1: FormData, d2: FormData, lastNameMessage: string)
    requires AgreeOnSchema(d1, d2)
    ensures ValidateWith(d1, lastNameMessage) == ValidateWith(d2, lastNameMessage)
  {
    SameIssues(d1, d2, lastNameMessage);
    if ValidateWith(d2, lastNameMessage).Ok? {
      SameFieldLookups(d1, d2);
      assert GuestsText(d1) == GuestsText(d2);
    } else {
      SameErrors(d1, d2, lastNameMessage);
    }
  }

  lemma SameIssues(d1: FormData, d2: FormData, lastNameMessage: string)
    requires AgreeOnSchema(d1, d2)
    ensures forall f :: FieldIssues(d1, lastNameMessage, f) == FieldIssues(d2, lastNameMessage, f)
  {
    SameFieldLookups(d1, d2);
  }

  lemma SameErrors(d1: FormData, d2: FormData, lastNameMessage: string)
    requires forall f :: FieldIssues(d1, lastNameMessage, f) == FieldIssues(d2, lastNameMessage, f)
    ensures Errors(d1, lastNameMessage) == Errors(d2, lastNameMessage)
  {
    var e1, e2 := Errors(d1, lastNameMessage), Errors(d2, lastNameMessage);
    forall f | f in e1 ensures f in e2 && e1[f] == e2[f] {
    }
  }

  // ---------------------------------------------------------------------------
  // Round trip with the form

  /** The form data a filled-in form submits for a value. */
  function Encode(v: RsvpForm): FormData {
    var fields := map[
      FirstNameField := v.firstName,
      GuestsField := RenderInt(v.guests),
      LastNameField := v.lastName,
      PartyIdField := v.partyId,
      ResponseField := ResponseName(v.response)];
    if v.message.Some? then fields[MessageField := v.message.value] else fields
  }

  /** The values the schema can produce: both names non-empty. */
  predicate WellFormed(v: RsvpForm) {
    v.firstName != "" && v.lastName != ""
  }

  /** Validation accepts exactly the well-formed values back from their encoding. */
  lemma ValidateEncode(v: RsvpForm)
    ensures WellFormed(v) ==> Validate(Encode(v)) == Ok(v)
    ensures !WellFormed(v) ==> Validate(Encode(v)).Err?
  {
    var data := Encode(v);
    ParseResponseName(v.response, ResponseName(v.response));
    if WellFormed(v) {
      assert forall f :: f in SchemaFields ==> FieldValid(data, LastNameRequired, f);
    } else {
      assert !FieldValid(data, LastNameRequired, if v.firstName == "" then FirstNameField else LastNameField);
    }
  }

  /** Every value the schema produces is well-formed and is reproduced by encoding it. */
  lemma ValidateWellFormed(data: FormData)
    requires Validate(data).Ok?
    ensures WellFormed(Validate(data).value)
    ensures Validate(Encode(Validate(data).value)) == Validate(data)
  {
    ValidateEncode(Validate(data).value);
  }

  // ---------------------------------------------------------------------------
  // The action

  datatype Status = Error | Idle | Success

  /** What the form library makes of a request: its intent, the raw payload, the issues and the value. */
  datatype Submission = Submission(
    intent: string, payload: FormData, error: FieldErrors, value: Option<RsvpForm>)

  datatype ActionResponse = ActionResponse(status: Status, httpStatus: int, submission: Submission)

  /**
   * Parsing a request against the schema whose last-name rule carries
   * `lastNameMessage`, collecting every issue of every field.
   */
  function Parse(data: FormData, lastNameMessage: string, intent: string): (s: Submission)
    ensures s.intent == intent && s.payload == data
    ensures s.value.Some? <==> ValidateWith(data, lastNameMessage).Ok?
    ensures s.value.Some? ==> s.value == Some(ValidateWith(data, lastNameMessage).value) && s.error == map[]
    ensures s.value.None? ==> s.error == ValidateWith(data, lastNameMessage).error
  {
    match ValidateWith(data, lastNameMessage)
    case Ok(v) => Submission(intent, data, map[], Some(v))
    case Err(e) => Submission(intent, data, e, None)
  }

  /**
   * The action: an invalid submission is answered "error" with HTTP 400; a valid
   * one is "idle" unless its intent is a plain submit, then "success". The parsed
   * submission is echoed in every case. The route as written is
   * `Action(data, FirstNameRequired, intent)`; the corrected route passes
   * `LastNameRequired`.
   */
  function Action(data: FormData, lastNameMessage: string, intent: string): (r: ActionResponse)
    ensures r.submission == Parse(data, lastNameMessage, intent)
    ensures r.status == Error <==> ValidateWith(data, lastNameMessage).Err?
    ensures r.status == Idle <==> ValidateWith(data, lastNameMessage).Ok? && intent != SubmitIntent
    ensures r.status == Success <==> ValidateWith(data, lastNameMessage).Ok? && intent == SubmitIntent
    ensures r.httpStatus == (if r.status == Error then 400 else 200)
  {
    var submission := Parse(data, lastNameMessage, intent);
    if submission.value.None? then ActionResponse(Error, 400, submission)
    else if submission.intent != SubmitIntent then ActionResponse(Idle, 200, submission)
    else ActionResponse(Success, 200, submission)
  }

  /**
   * The route as written answers an empty last name with HTTP 400 and echoes the
   * first-name message under the last-name field.
   */
  lemma ActionAsWrittenMisnamesLastName(data: FormData, intent: string)
    requires LastNameField in data && data[LastNameField] == ""
    ensures var r := Action(data, FirstNameRequired, intent);
      && r.status == Error && r.httpStatus == 400
      && r.submission.error[LastNameField] == [TooSmall("First name is required.")]
  {
    LastNameMessageAsWritten(data);
  }

  /**
   * The corrected route answers every request with the same status and value as
   * the route as written, and reports errors on the same fields, identical on
   * every field but the last name; an empty last name is reported with its own
   * message.
   */
  lemma CorrectedActionAgrees(data: FormData, intent: string)
    ensures var written, corrected := Action(data, FirstNameRequired, intent), Action(data, LastNameRequired, intent);
      && corrected.status == written.status
      && corrected.httpStatus == written.httpStatus
      && corrected.submission.value == written.submission.value
      && corrected.submission.error.Keys == written.submission.error.Keys
      && (forall f :: f in written.submission.error && f != LastNameField ==>
            corrected.submission.error[f] == written.submission.error[f])
    ensures LastNameField in data && data[LastNameField] == "" ==>
      Action(data, LastNameRequired, intent).submission.error[LastNameField] == [TooSmall("Last name is required.")]
  {
    assert Validate(data) == ValidateWith(data, LastNameRequired);
    assert ValidateAsWritten(data) == ValidateWith(data, FirstNameRequired);
    LastNameRule(data);
    if Validate(data).Err? {
      ErrorsDifferOnlyInLastName(data);
    }
  }

  /** The two schemas' errors cover the same fields and differ at most on the last name. */
  lemma ErrorsDifferOnlyInLastName(data: FormData)
    ensures Errors(data, LastNameRequired).Keys == Errors(data, FirstNameRequired).Keys
    ensures forall f :: f in Errors(data, FirstNameRequired) && f != LastNameField ==>
      Errors(data, LastNameRequired)[f] == Errors(data, FirstNameRequired)[f]
  {
    SameFieldsValid(data, LastNameRequired, FirstNameRequired);
  }

  /**
   * A complete submit of a well-formed value succeeds and carries that value back,
   * in the route as written and in the corrected one.
   */
  lemma SubmitEncodedSucceeds(v: RsvpForm)
    requires WellFormed(v)
    ensures Action(Encode(v), FirstNameRequired, SubmitIntent).status == Success
    ensures Action(Encode(v), FirstNameRequired, SubmitIntent).submission.value == Some(v)
    ensures Action(Encode(v), LastNameRequired, SubmitIntent).submission.value == Some(v)
  {
    ValidateEncode(v);
    assert Validate(Encode(v)) == ValidateWith(Encode(v), LastNameRequired);
    assert ValidateAsWritten(Encode(v)) == ValidateWith(Encode(v), FirstNameRequired);
  }
}
