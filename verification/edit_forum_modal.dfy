/** The "edit forum" dialog (src/components/forum/EditForumModal.tsx):
    `handleSubmit` runs the same checks as the creation dialog and PATCHes
    the forum. */
module EditForumModal {
  import opened Options
  import opened Text
  import opened Http

  const MaxTitle := 100
  const MaxDescription := 250

  const BlankFields := "Minden mezőt ki kell tölteni."
  const TitleTooLong := "A cím legfeljebb 100 karakter hosszú lehet."
  const DescriptionTooLong := "A leírás legfeljebb 250 karakter hosszú lehet."
  const DuplicateTitle := "Már létezik ilyen című fórum."

  /** Every rule an edited forum must pass; a whitespace-only field counts
      as empty, and the length limits apply to the strings as typed. */
  predicate Valid(title: string, description: string) {
    && !AllWhitespace(title)
    && !AllWhitespace(description)
    && |title| <= MaxTitle
    && |description| <= MaxDescription
  }

  /** The validation chain: the message of the first rule that fails, in the
      order blank fields, title length, description length. */
  function Validate(title: string, description: string): (r: Option<string>)
    ensures r.None? <==> Valid(title, description)
    ensures r == Some(BlankFields) <==> AllWhitespace(title) || AllWhitespace(description)
    ensures r == Some(TitleTooLong) <==>
      !AllWhitespace(title) && !AllWhitespace(description) && |title| > MaxTitle
    ensures r == Some(DescriptionTooLong) <==>
      !AllWhitespace(title) && !AllWhitespace(description) && |title| <= MaxTitle
      && |description| > MaxDescription
  {
    BlankIffAllWhitespace(title);
    BlankIffAllWhitespace(description);
    if IsBlank(title) || IsBlank(description) then Some(BlankFields)
    else if |title| > MaxTitle then Some(TitleTooLong)
    else if |description| > MaxDescription then Some(DescriptionTooLong)
    else None
  }

  function Path(forumId: string): string {
    "/forum/" + forumId
  }

  /** The `try` block of `handleSubmit`: the PATCH and what its reply does. */
  function Respond(forumId: string, reply: Reply): (r: Outcome)
    ensures Sends(r.effects) && r.effects[0] == Send(Patch, Path(forumId))
    // 409: the duplicate-title message; returns without closing or calling back
    ensures reply.Answered? && reply.response.status == 409 ==>
      r.error == Some(DuplicateTitle) && CloseDialog !in r.effects && NotifyParent !in r.effects
    ensures reply.Answered? && reply.response.status != 409 && !IsOk(reply.response.status) ==>
      r.error == Some(StatusError(reply.response.status))
      && CloseDialog !in r.effects && NotifyParent !in r.effects
    ensures reply.Thrown? ==>
      r.error == Some(reply.reason) && CloseDialog !in r.effects && NotifyParent !in r.effects
    // success: the dialog closes, then onForumUpdated runs, each once
    ensures r.error.None? <==> reply.Answered? && IsOk(reply.response.status)
    ensures r.error.None? ==>
      Count(r.effects, CloseDialog) == 1 && Count(r.effects, NotifyParent) == 1
      && Precedes(r.effects, CloseDialog, NotifyParent)
  {
    match reply
    case Thrown(reason) => Outcome(Some(reason), Request(Patch, Path(forumId), []))
    case Answered(response) =>
      if response.status == 409 then Outcome(Some(DuplicateTitle), Request(Patch, Path(forumId), []))
      else if !IsOk(response.status) then
        Outcome(Some(StatusError(response.status)), Request(Patch, Path(forumId), []))
      else
        var effects := Request(Patch, Path(forumId), [SuccessNotice, CloseDialog, NotifyParent]);
        assert effects[2] == CloseDialog && effects[3] == NotifyParent;
        Outcome(None, effects)
  }

  /** `handleSubmit`: the error is reset first, then either the first
      failing rule's message with no request, or the PATCH. */
  function Submit(forumId: string, title: string, description: string, reply: Reply): (r: Outcome)
    ensures !Valid(title, description) ==>
      r.effects == [] && r.error == Validate(title, description)
    ensures Sends(r.effects) <==> Valid(title, description)
    ensures Valid(title, description) ==> r == Respond(forumId, reply)
  {
    match Validate(title, description)
    case Some(message) => Outcome(Some(message), [])
    case None => Respond(forumId, reply)
  }
}
