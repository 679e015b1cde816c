/** The comment-deletion dialog (src/components/forum/DeleteCommentConfirmation.tsx):
    `handleConfirm` sends the DELETE itself and dispatches on the status. */
module DeleteCommentConfirmation {
  import opened Options
  import opened Http
  import Session

  const UnknownError := "Ismeretlen hiba történt."

  function Path(forumId: string, commentId: string): string {
    "/forum/" + forumId + "/comments/" + commentId
  }

  /** The statuses whose JSON body is read for a message. */
  predicate Explained(status: nat) {
    status == 401 || status == 403 || status == 404
  }

  /** `handleConfirm` with the dialog's `commentId` and `forumId` props and the
      reply the DELETE would get. The error is reset first. */
  function Confirm(commentId: Option<string>, forumId: string, reply: Reply): (r: Outcome)
    // a missing id: nothing at all happens
    ensures !Truthy(commentId) || forumId == "" ==> r == Outcome(None, [])
    ensures Sends(r.effects) <==> Truthy(commentId) && forumId != ""
    ensures Sends(r.effects) ==> r.effects[0] == Send(Delete, Path(forumId, commentId.value))
    // 204: fetchComments, then onConfirm, then the success toast
    ensures Sends(r.effects) && reply.Answered? && reply.response.status == 204 ==>
      && r.error.None?
      && Precedes(r.effects, Refetch, NotifyParent)
      && Precedes(r.effects, NotifyParent, SuccessNotice)
      && Count(r.effects, NotifyParent) == 1
    // 401, 403, 404: the server's message, or the fallback when it has none
    ensures Sends(r.effects) && reply.Answered? && Explained(reply.response.status) ==>
      r.error == Some(OrElse(reply.response.message, UnknownError))
    // any other failure: the status text
    ensures Sends(r.effects) && reply.Answered? && !Explained(reply.response.status)
            && !IsOk(reply.response.status) ==>
      r.error == Some(StatusError(reply.response.status))
    ensures Sends(r.effects) && reply.Thrown? ==> r.error == Some(reply.reason)
    // any other success: neither a callback nor an error
    ensures Sends(r.effects) && reply.Answered? && IsOk(reply.response.status)
            && reply.response.status != 204 ==>
      r == Outcome(None, [Send(Delete, Path(forumId, commentId.value))])
    // every failure is also shown in an error toast; only 204 tells the parent
    ensures r.error.Some? ==> r.effects[|r.effects| - 1] == ErrorNotice(r.error.value)
    ensures NotifyParent in r.effects <==>
      Sends(r.effects) && reply.Answered? && reply.response.status == 204
  {
    if !Truthy(commentId) || forumId == "" then Outcome(None, [])
    else
      var path := Path(forumId, commentId.value);
      match reply
      case Thrown(reason) => Outcome(Some(reason), Request(Delete, path, [ErrorNotice(reason)]))
      case Answered(response) =>
        if response.status == 204 then
          var effects := Request(Delete, path, [Refetch, NotifyParent, SuccessNotice]);
          assert effects[1] == Refetch && effects[2] == NotifyParent && effects[3] == SuccessNotice;
          Outcome(None, effects)
        else if Explained(response.status) then
          var message := OrElse(response.message, UnknownError);
          Outcome(Some(message), Request(Delete, path, [ErrorNotice(message)]))
        else if !IsOk(response.status) then
          var message := StatusError(response.status);
          Outcome(Some(message), Request(Delete, path, [ErrorNotice(message)]))
        else
          Outcome(None, Request(Delete, path, []))
  }

  /** Deleting a comment never touches the token store. The list is reloaded
      and the parent told together, exactly when the server answered 204;
      the error line ends up empty exactly when nothing failed. */
  lemma ConfirmOutcome(st: Session.Store, commentId: Option<string>, forumId: string, reply: Reply)
    ensures var r := Confirm(commentId, forumId, reply);
      && Session.Run(st, r.effects) == st
      && (Refetch in r.effects <==> NotifyParent in r.effects)
      && (Refetch in r.effects <==>
            Truthy(commentId) && forumId != "" && reply.Answered? && reply.response.status == 204)
      && (r.error.None? <==> !Sends(r.effects) || (reply.Answered? && IsOk(reply.response.status)))
  {
    var r := Confirm(commentId, forumId, reply);
    if Truthy(commentId) && forumId != "" {
      var send := Send(Delete, Path(forumId, commentId.value));
      match reply
      case Thrown(reason) =>
        KeepsStore(st, [send, ErrorNotice(reason)]);
      case Answered(response) =>
        if response.status == 204 {
          KeepsStore(st, [send, Refetch, NotifyParent, SuccessNotice]);
        } else if Explained(response.status) || !IsOk(response.status) {
          KeepsStore(st, [send, ErrorNotice(r.error.value)]);
        } else {
          KeepsStore(st, [send]);
        }
    }
  }

  /** None of the dialog's effect lists touches a token. */
  lemma KeepsStore(st: Session.Store, effects: seq<Effect>)
    requires forall e | e in effects :: e.Send? || e.ErrorNotice? || e in {Refetch, NotifyParent, SuccessNotice}
    ensures Session.Run(st, effects) == st
  {
    forall i | 0 <= i < |effects|
      ensures !(effects[i].StoreToken? || effects[i].RemoveLocalToken? ||
                effects[i].RemoveSessionToken? || effects[i].ClearTokens?)
    {
      assert effects[i] in effects;
    }
    Session.RunWithoutTokenOps(st, effects);
  }
}
