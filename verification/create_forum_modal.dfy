/** The "new forum" dialog (src/src/components/forum/CreateForumModal.tsx):
    `handleSubmit` validates the title and description, POSTs them, and maps
    the reply onto the dialog's error line and the parent's callbacks. */
module CreateForumModal {
  import opened Options
  import opened Text
  import opened Http

  const MaxTitle := 100
  const MaxDescription := 250

  const BlankFields := "Minden mezőt ki kell tölteni."
  const TitleTooLong := "A cím legfeljebb 100 karakter hosszú lehet."
  const DescriptionTooLong := "A leírás legfeljebb 250 karakter hosszú lehet."
  const DuplicateTitle := "Már létezik ilyen című fórum."

  /** Every rule a new forum must pass. The length limits apply to the
      strings as typed, not to their trimmed forms. */
  predicate Valid(title: string, description: string) {
    && !IsBlank(title)
    && !IsBlank(description)
    && |title| <= MaxTitle
    && |description| <= MaxDescription
  }

  /** The validation chain: the message of the first rule that fails, in the
      order blank fields, title length, description length. */
  function Validate(title: string, description: string): (r: Option<string>)
    ensures r.None? <==> Valid(title, description)
    ensures r == Some(BlankFields) <==> IsBlank(title) || IsBlank(description)
    ensures r == Some(TitleTooLong) <==>
      !IsBlank(title) && !IsBlank(description) && |title| > MaxTitle
    ensures r == Some(DescriptionTooLong) <==>
      !IsBlank(title) && !IsBlank(description) && |title| <= MaxTitle && |description| > MaxDescription
  {
    if IsBlank(title) || IsBlank(description) then Some(BlankFields)
    else if |title| > MaxTitle then Some(TitleTooLong)
    else if |description| > MaxDescription then Some(DescriptionTooLong)
    else None
  }

  /** The `try` block of `handleSubmit`, once the fields have passed: the
      POST and what its reply does to the dialog. */
  function Respond(reply: Reply): (r: Outcome)
    ensures Sends(r.effects) && r.effects[0] == Send(Post, "/forum")
    // 409: the duplicate-title message; the dialog stays open and the parent is not told
    ensures reply.Answered? && reply.response.status == 409 ==>
      r.error == Some(DuplicateTitle) && CloseDialog !in r.effects && NotifyParent !in r.effects
    // any other failure: the status text, and the dialog stays open
    ensures reply.Answered? && reply.response.status != 409 && !IsOk(reply.response.status) ==>
      r.error == Some(StatusError(reply.response.status))
      && CloseDialog !in r.effects && NotifyParent !in r.effects
    ensures reply.Thrown? ==>
      r.error == Some(reply.reason) && CloseDialog !in r.effects && NotifyParent !in r.effects
    // success: no error; onClose, then onForumCreated, each exactly once
    ensures r.error.None? <==> reply.Answered? && IsOk(reply.response.status)
    ensures r.error.None? ==>
      Count(r.effects, CloseDialog) == 1 && Count(r.effects, NotifyParent) == 1
      && Precedes(r.effects, CloseDialog, NotifyParent)
  {
    match reply
    case Thrown(reason) => Outcome(Some(reason), Request(Post, "/forum", []))
    case Answered(response) =>
      if response.status == 409 then Outcome(Some(DuplicateTitle), Request(Post, "/forum", []))
      else if !IsOk(response.status) then
        Outcome(Some(StatusError(response.status)), Request(Post, "/forum", []))
      else
        var effects := Request(Post, "/forum", [SuccessNotice, CloseDialog, NotifyParent]);
        assert effects[2] == CloseDialog && effects[3] == NotifyParent;
        Outcome(None, effects)
  }

  /** `handleSubmit` with the fields as typed and the reply the POST would
      get. The error is reset first, so what was shown before has no
      influence on the outcome. */
  function Submit(title: string, description: string, reply: Reply): (r: Outcome)
    // invalid input: the first failing rule's message, and no request
    ensures !Valid(title, description) ==>
      r.effects == [] && r.error == Validate(title, description)
    ensures Sends(r.effects) <==> Valid(title, description)
    ensures Valid(title, description) ==> r == Respond(reply)
  {
    match Validate(title, description)
    case Some(message) => Outcome(Some(message), [])
    case None => Respond(reply)
  }
}
