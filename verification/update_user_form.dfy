/** The profile editor of src/components/auth/UpdateUserForm.tsx: the
    session gate on mount, the schema, `handleSubmit`, which PUTs the new
    names, and `handleCancel`. */
module UpdateUserForm {
  import opened Options
  import opened Http
  import opened Schema
  import Session
  import SessionGate

  const InvalidInput := "A bevitt adatok érvénytelenek."
  const BadToken := "Hiányzó vagy érvénytelen token."
  const UnknownError := "Ismeretlen hiba történt."

  /** `fetchUserData` on mount: the shared session gate. */
  function LoadUser(st: Session.Store, reply: Reply): (r: Outcome)
    ensures Sends(r.effects) <==> Truthy(st.local)
    ensures StoreUser in r.effects <==> Truthy(st.local) && reply.Answered? && IsOk(reply.response.status)
    ensures StoreUser !in r.effects ==>
      Navigate(SessionGate.LoginRoute) in r.effects && !Truthy(Session.Run(st, r.effects).local)
  {
    SessionGate.GateHolds(st, reply);
    SessionGate.LoadUser(st, reply)
  }

  /** `validationSchema`: both names filled in. */
  predicate Valid(firstName: string, lastName: string) {
    Required(firstName) && Required(lastName)
  }

  /** The status defaults when the body has no `message`. */
  function DefaultText(status: nat): (r: string)
    // each status the switch names has a text of its own; the rest share one
    ensures r == InvalidInput <==> status == 400
    ensures r == BadToken <==> status == 401
    ensures r in {InvalidInput, BadToken, UnknownError}
  {
    if status == 400 then InvalidInput
    else if status == 401 then BadToken
    else UnknownError
  }

  /** The `Error.message` the `catch` block sees after a failed PUT. */
  function FailureText(reply: Reply): string {
    match reply
    case Thrown(reason) => reason
    case Answered(response) => OrElse(response.message, DefaultText(response.status))
  }

  /** `handleSubmit` once the schema has passed. Every path that reaches the
      request ends with `setSubmitting(false)`; the early return for a
      missing token does not. */
  function Respond(st: Session.Store, reply: Reply): (r: Outcome)
    // no token: the login page, without a request, the form left submitting
    ensures !Truthy(st.local) ==> r == Outcome(None, [Navigate("/login")])
    ensures Sends(r.effects) <==> Truthy(st.local)
    ensures Sends(r.effects) <==> EndSubmitting in r.effects
    ensures Truthy(st.local) ==>
      r.effects[0] == Send(Put, "/user") && r.effects[|r.effects| - 1] == EndSubmitting
    // accepted: the new user is kept, a notice shown, then the profile page
    ensures Truthy(st.local) && reply.Answered? && IsOk(reply.response.status) ==>
      r == Outcome(None, [Send(Put, "/user"), StoreUser, SuccessNotice, Navigate("/profile"), EndSubmitting])
    // refused with the bad-token text: signed out, no error shown
    ensures Truthy(st.local) && !(reply.Answered? && IsOk(reply.response.status)) && FailureText(reply) == BadToken ==>
      r == Outcome(None, [Send(Put, "/user"), RemoveLocalToken, Navigate("/login"), EndSubmitting])
    // refused otherwise: the text on the error line and in a toast
    ensures Truthy(st.local) && !(reply.Answered? && IsOk(reply.response.status)) && FailureText(reply) != BadToken ==>
      r == Outcome(Some(FailureText(reply)), [Send(Put, "/user"), ErrorNotice(FailureText(reply)), EndSubmitting])
  {
    if !Truthy(st.local) then Outcome(None, [Navigate("/login")])
    else if reply.Answered? && IsOk(reply.response.status) then
      Outcome(None, Request(Put, "/user", [StoreUser, SuccessNotice, Navigate("/profile"), EndSubmitting]))
    else
      var text := FailureText(reply);
      if text == BadToken then
        Outcome(None, Request(Put, "/user", [RemoveLocalToken, Navigate("/login"), EndSubmitting]))
      else
        Outcome(Some(text), Request(Put, "/user", [ErrorNotice(text), EndSubmitting]))
  }

  /** The form's submit: nothing while the schema fails, otherwise `handleSubmit`. */
  function Submit(prev: Option<string>, firstName: string, lastName: string, st: Session.Store, reply: Reply)
    : (r: Outcome)
    ensures !Valid(firstName, lastName) ==> r == Outcome(prev, [])
    ensures Valid(firstName, lastName) ==> r == Respond(st, reply)
    ensures Sends(r.effects) <==> Valid(firstName, lastName) && Truthy(st.local)
  {
    if Valid(firstName, lastName) then Respond(st, reply) else Outcome(prev, [])
  }

  /** `handleCancel`: back to the profile page, without a request. */
  function Cancel(): (effects: seq<Effect>)
    ensures !Sends(effects) && !TouchesToken(effects)
    ensures |effects| == 1 && effects[0] == Navigate("/profile")
  {
    [Navigate("/profile")]
  }

  /** A 401 without a message of its own, or with exactly the bad-token text,
      signs the user out; a 401 with any other message only shows it. */
  lemma UnauthorizedSignsOut(st: Session.Store, response: Response)
    requires Truthy(st.local) && response.status == 401
    ensures var r := Respond(st, Answered(response));
      (Session.Run(st, r.effects).local.None? <==> !Truthy(response.message) || response.message.value == BadToken)
  {
    var r := Respond(st, Answered(response));
    if FailureText(Answered(response)) == BadToken {
      assert r.effects == [Send(Put, "/user")] + [RemoveLocalToken, Navigate("/login"), EndSubmitting];
      Session.RunAppend(st, [Send(Put, "/user")], [RemoveLocalToken, Navigate("/login"), EndSubmitting]);
      Session.RunAppend(Session.Apply(st, Send(Put, "/user")), [RemoveLocalToken], [Navigate("/login"), EndSubmitting]);
      assert [RemoveLocalToken] + [Navigate("/login"), EndSubmitting] == [RemoveLocalToken, Navigate("/login"), EndSubmitting];
      Session.RunSingle(st, RemoveLocalToken);
      assert !TouchesToken([Navigate("/login"), EndSubmitting]);
      Session.RunWithoutTokenOps(st.(local := None), [Navigate("/login"), EndSubmitting]);
    } else {
      assert !TouchesToken(r.effects);
      Session.RunWithoutTokenOps(st, r.effects);
    }
  }
}
