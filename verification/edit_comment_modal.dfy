/** The "edit comment" dialog (src/models/components/forum/EditCommentModal.tsx).
    Unlike the other dialogs, a failed PATCH reports the response body too. */
module EditCommentModal {
  import opened Options
  import opened Text
  import opened Http

  const MaxMessage := 250

  const EmptyMessage := "A hozzászólás nem lehet üres."
  const MessageTooLong := "A hozzászólás legfeljebb 250 karakter hosszú lehet."

  predicate Valid(message: string) {
    !IsBlank(message) && |message| <= MaxMessage
  }

  function Validate(message: string): (r: Option<string>)
    ensures r.None? <==> Valid(message)
    ensures r == Some(EmptyMessage) <==> IsBlank(message)
    ensures r == Some(MessageTooLong) <==> !IsBlank(message) && |message| > MaxMessage
  {
    if IsBlank(message) then Some(EmptyMessage)
    else if |message| > MaxMessage then Some(MessageTooLong)
    else None
  }

  function Path(forumId: string, commentId: string): string {
    "/forum/" + forumId + "/comments/" + commentId
  }

  /** `HTTP error! status: ${response.status} - ${errorText}` */
  function FailureText(response: Response): string {
    StatusError(response.status) + " - " + response.text
  }

  /** The `try` block of `handleSubmit`: the PATCH and what its reply does. */
  function Respond(forumId: string, commentId: string, reply: Reply): (r: Outcome)
    ensures Sends(r.effects) && r.effects[0] == Send(Patch, Path(forumId, commentId))
    // a failure names the status and then the body the server sent
    ensures reply.Answered? && !IsOk(reply.response.status) ==>
      && r.error == Some(StatusError(reply.response.status) + " - " + reply.response.text)
      && CloseDialog !in r.effects && NotifyParent !in r.effects
    ensures reply.Thrown? ==>
      r.error == Some(reply.reason) && CloseDialog !in r.effects && NotifyParent !in r.effects
    // success: the dialog closes and then onCommentUpdated runs
    ensures r.error.None? <==> reply.Answered? && IsOk(reply.response.status)
    ensures r.error.None? ==>
      Count(r.effects, CloseDialog) == 1 && Count(r.effects, NotifyParent) == 1
      && Precedes(r.effects, CloseDialog, NotifyParent)
  {
    match reply
    case Thrown(reason) => Outcome(Some(reason), Request(Patch, Path(forumId, commentId), []))
    case Answered(response) =>
      if !IsOk(response.status) then
        Outcome(Some(FailureText(response)), Request(Patch, Path(forumId, commentId), []))
      else
        var effects := Request(Patch, Path(forumId, commentId), [SuccessNotice, CloseDialog, NotifyParent]);
        assert effects[2] == CloseDialog && effects[3] == NotifyParent;
        Outcome(None, effects)
  }

  /** `handleSubmit`: the error is reset first; a blank or over-long message
      sends no PATCH. */
  function Submit(forumId: string, commentId: string, message: string, reply: Reply): (r: Outcome)
    ensures !Valid(message) ==> r.effects == [] && r.error == Validate(message)
    ensures Sends(r.effects) <==> Valid(message)
    ensures Valid(message) ==> r == Respond(forumId, commentId, reply)
  {
    match Validate(message)
    case Some(error) => Outcome(Some(error), [])
    case None => Respond(forumId, commentId, reply)
  }
}
