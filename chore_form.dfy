/** The chore form: the values its fields start from, for a new chore or an
    existing one, and what it hands on when submitted. "Today" is a
    parameter. */
module ChoreForm {
  import opened Common
  import opened CalendarDate
  import opened DateFormat
  import opened Types
  import opened JsBuiltins

  /** The text state of the form. The assignee field holds "" for
      "Unassigned". */
  datatype FormFields = FormFields(title: string, assigneeId: string, date: string, recurrence: RecurrenceRule)

  /** What the form submits: a chore without id, createdAt and updatedAt. */
  datatype ChoreFormData = ChoreFormData(
    title: string,
    assigneeId: Option<string>,
    date: string,
    isCompleted: bool,
    recurrence: RecurrenceRule)

  /** The rule a new chore starts with: no repetition, interval 1. */
  const NoRepeatRule := RecurrenceRule(NoRepeat, 1, None, None, None)

  /** The initial state: the chore's own values when editing; otherwise
      empty title and assignee, the clicked day (or today) and no repetition.
      A null assignee shows as "". */
  function InitialFields(chore: Option<Chore>, initialDate: Option<Date>, today: Date): (f: FormFields)
    ensures chore.Some? ==> f.title == chore.value.title && f.date == chore.value.date
                            && f.recurrence == chore.value.recurrence
                            && (chore.value.assigneeId.None? ==> f.assigneeId == "")
                            && (chore.value.assigneeId.Some? ==> f.assigneeId == chore.value.assigneeId.value)
    ensures chore.None? ==>
      var day := if initialDate.Some? then initialDate.value else today;
      && f.title == "" && f.assigneeId == "" && f.recurrence == NoRepeatRule
      && f.date == FormatDateISO(day)
      && (1 <= day.year <= 9999 ==> ParseDateString(f.date) == Some(day))
  {
    match chore
    case Some(c) =>
      FormFields(c.title, if c.assigneeId.Some? then c.assigneeId.value else "", c.date, c.recurrence)
    case None =>
      var day := if initialDate.Some? then initialDate.value else today;
      if 1 <= day.year <= 9999 then
        ParseFormatRoundTrip(day);
        FormFields("", "", FormatDateISO(day), NoRepeatRule)
      else FormFields("", "", FormatDateISO(day), NoRepeatRule)
  }

  /** handleSubmit: nothing for a blank title; otherwise the trimmed title,
      "" as a null assignee, and the completion flag of the chore being
      edited (false for a new one). The form refuses a title exactly when it
      is empty or all white space; a submitted title is the typed title trimmed:
      non-empty, with no white space at either end. */
  function HandleSubmit(chore: Option<Chore>, fields: FormFields): (d: Option<ChoreFormData>)
    ensures d.None? <==> forall k :: 0 <= k < |fields.title| ==> IsJsWhitespace(fields.title[k])
    ensures d.Some? ==>
      var v := d.value;
      && v.title == Trim(fields.title)
      && v.title != [] && !IsJsWhitespace(v.title[0]) && !IsJsWhitespace(v.title[|v.title| - 1])
      && Trim(v.title) == v.title
      && (v.assigneeId.None? <==> fields.assigneeId == "")
      && (v.assigneeId.Some? ==> v.assigneeId.value == fields.assigneeId)
      && v.date == fields.date && v.recurrence == fields.recurrence
      && (v.isCompleted <==> chore.Some? && chore.value.isCompleted)
  {
    var title := Trim(fields.title);
    TrimIsInnerPiece(fields.title);
    TrimIdempotent(fields.title);
    if title == [] then None
    else Some(ChoreFormData(
      title,
      if fields.assigneeId == "" then None else Some(fields.assigneeId),
      fields.date,
      if chore.Some? then chore.value.isCompleted else false,
      fields.recurrence))
  }

  /** The payload the chore store receives for ADD_CHORE: the submitted fields,
      with no deletedAt, so the chore it makes is active. */
  function ToDraft(data: ChoreFormData): (d: ChoreDraft)
    ensures !Truthy(d.deletedAt)
    ensures d.title == data.title && d.assigneeId == data.assigneeId && d.date == data.date
    ensures d.isCompleted == data.isCompleted && d.recurrence == data.recurrence
  {
    ChoreDraft(data.title, data.assigneeId, data.date, data.isCompleted, data.recurrence, None)
  }

  // ----- Lemmas -----

  /** Opening an existing chore and submitting it unchanged hands back the
      chore's own fields, provided its title is already trimmed; an
      assignee id "" comes back as null. */
  lemma EditUnchangedRoundTrip(c: Chore, initialDate: Option<Date>, today: Date)
    requires Trim(c.title) == c.title && c.title != ""
    ensures HandleSubmit(Some(c), InitialFields(Some(c), initialDate, today)) ==
      Some(ChoreFormData(c.title, if c.assigneeId == Some("") then None else c.assigneeId,
                         c.date, c.isCompleted, c.recurrence))
  {
  }

  /** Saving a form twice changes nothing more: resubmitting what a
      submission produced gives the same data. */
  lemma SubmitIdempotent(chore: Option<Chore>, fields: FormFields)
    requires HandleSubmit(chore, fields).Some?
    ensures var d := HandleSubmit(chore, fields).value;
      var again := FormFields(d.title, if d.assigneeId.Some? then d.assigneeId.value else "", d.date, d.recurrence);
      HandleSubmit(chore, again) == Some(d)
  {
    TrimIdempotent(fields.title);
  }
}
