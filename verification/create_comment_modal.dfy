/** The "new comment" dialog (src/components/forum/CreateCommentModal.tsx). */
module CreateCommentModal {
  import opened Options
  import opened Text
  import opened Http

  const MaxMessage := 250

  const EmptyMessage := "A hozzászólás nem lehet üres."
  const MessageTooLong := "A hozzászólás legfeljebb 250 karakter hosszú lehet."

  predicate Valid(message: string) {
    !IsBlank(message) && |message| <= MaxMessage
  }

  /** The blank check comes before the length check. */
  function Validate(message: string): (r: Option<string>)
    ensures r.None? <==> Valid(message)
    ensures r == Some(EmptyMessage) <==> IsBlank(message)
    ensures r == Some(MessageTooLong) <==> !IsBlank(message) && |message| > MaxMessage
  {
    if IsBlank(message) then Some(EmptyMessage)
    else if |message| > MaxMessage then Some(MessageTooLong)
    else None
  }

  function Path(forumId: string): string {
    "/forum/" + forumId + "/comments"
  }

  /** The `try` block of `handleSubmit`: the POST and what its reply does. */
  function Respond(forumId: string, reply: Reply): (r: Outcome)
    ensures Sends(r.effects) && r.effects[0] == Send(Post, Path(forumId))
    ensures reply.Answered? && !IsOk(reply.response.status) ==>
      r.error == Some(StatusError(reply.response.status))
      && CloseDialog !in r.effects && NotifyParent !in r.effects
    ensures reply.Thrown? ==>
      r.error == Some(reply.reason) && CloseDialog !in r.effects && NotifyParent !in r.effects
    // success: onClose, then onCommentCreated
    ensures r.error.None? <==> reply.Answered? && IsOk(reply.response.status)
    ensures r.error.None? ==>
      Count(r.effects, CloseDialog) == 1 && Count(r.effects, NotifyParent) == 1
      && Precedes(r.effects, CloseDialog, NotifyParent)
  {
    match reply
    case Thrown(reason) => Outcome(Some(reason), Request(Post, Path(forumId), []))
    case Answered(response) =>
      if !IsOk(response.status) then
        Outcome(Some(StatusError(response.status)), Request(Post, Path(forumId), []))
      else
        var effects := Request(Post, Path(forumId), [SuccessNotice, CloseDialog, NotifyParent]);
        assert effects[2] == CloseDialog && effects[3] == NotifyParent;
        Outcome(None, effects)
  }

  /** `handleSubmit`: the error is reset first; invalid input sends nothing. */
  function Submit(forumId: string, message: string, reply: Reply): (r: Outcome)
    ensures !Valid(message) ==> r.effects == [] && r.error == Validate(message)
    ensures Sends(r.effects) <==> Valid(message)
    ensures Valid(message) ==> r == Respond(forumId, reply)
  {
    match Validate(message)
    case Some(error) => Outcome(Some(error), [])
    case None => Respond(forumId, reply)
  }
}
