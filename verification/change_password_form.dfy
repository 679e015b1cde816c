/** The password change form of src/components/auth/ChangePasswordForm.tsx:
    Formik runs `onSubmit` only once the schema passes; `onSubmit` PATCHes
    the new password and maps a refusal onto the form's error line, except
    for the missing-token refusal, which signs the user out. */
module ChangePasswordForm {
  import opened Options
  import opened Http
  import opened Schema
  import Session

  const InvalidInput := "A bevitt adatok érvénytelenek."
  const BadToken := "Hiányzó vagy érvénytelen token."
  const SamePassword := "A régi és az új jelszó azonos."
  const UnknownError := "Ismeretlen hiba történt."

  datatype Values = Values(oldPassword: string, password: string, passwordConfirm: string)

  /** `validationSchema`: both passwords follow the password rule, the new
      one differs from the old one, the confirmation repeats the new one, and
      every field is filled in. */
  predicate Valid(v: Values) {
    && StrongPassword(v.oldPassword) && Required(v.oldPassword)
    && StrongPassword(v.password) && v.password != v.oldPassword && Required(v.password)
    && v.passwordConfirm == v.password && Required(v.passwordConfirm)
  }

  /** The required rules are implied by the others: validity is exactly two
      strong passwords that differ, the second one confirmed. */
  lemma ValidIff(v: Values)
    ensures Valid(v) <==>
      StrongPassword(v.oldPassword) && StrongPassword(v.password)
      && v.password != v.oldPassword && v.passwordConfirm == v.password
  {
    StrongIsRequired(v.oldPassword);
    StrongIsRequired(v.password);
  }

  /** The default text of a refusal, used when the body has no `message`. */
  function DefaultText(status: nat): (r: string)
    // each status the switch names has a text of its own; the rest share one
    ensures r == InvalidInput <==> status == 400
    ensures r == BadToken <==> status == 401
    ensures r == SamePassword <==> status == 409
    ensures r in {InvalidInput, BadToken, SamePassword, UnknownError}
  {
    if status == 400 then InvalidInput
    else if status == 401 then BadToken
    else if status == 409 then SamePassword
    else UnknownError
  }

  /** The `Error.message` the `catch` block sees after a failed PATCH: the
      server's message when it sent one, else the status's default; or the
      reason a rejected fetch gives. */
  function FailureText(reply: Reply): string {
    match reply
    case Thrown(reason) => reason
    case Answered(response) => OrElse(response.message, DefaultText(response.status))
  }

  /** `onSubmit` once the schema has passed, with the token store and the
      reply the PATCH would get. */
  function Respond(st: Session.Store, reply: Reply): (r: Outcome)
    // no token: the login page, without a request
    ensures !Truthy(st.local) ==> r == Outcome(None, [Navigate("/login")])
    ensures Sends(r.effects) <==> Truthy(st.local)
    ensures Truthy(st.local) ==> r.effects[0] == Send(Patch, "/user/login")
    // accepted: a notice, then the profile page
    ensures Truthy(st.local) && reply.Answered? && IsOk(reply.response.status) ==>
      r == Outcome(None, [Send(Patch, "/user/login"), SuccessNotice, Navigate("/profile")])
    // refused with the bad-token text: signed out, no error shown
    ensures Truthy(st.local) && !(reply.Answered? && IsOk(reply.response.status)) ==>
      (RemoveLocalToken in r.effects <==> FailureText(reply) == BadToken)
    ensures Truthy(st.local) && !(reply.Answered? && IsOk(reply.response.status)) && FailureText(reply) == BadToken ==>
      r.error.None? && r.effects[|r.effects| - 1] == Navigate("/login")
    // refused otherwise: the text on the error line, and nowhere else to go
    ensures Truthy(st.local) && !(reply.Answered? && IsOk(reply.response.status)) && FailureText(reply) != BadToken ==>
      r == Outcome(Some(FailureText(reply)), [Send(Patch, "/user/login")])
  {
    if !Truthy(st.local) then Outcome(None, [Navigate("/login")])
    else if reply.Answered? && IsOk(reply.response.status) then
      Outcome(None, Request(Patch, "/user/login", [SuccessNotice, Navigate("/profile")]))
    else
      var text := FailureText(reply);
      if text == BadToken then
        Outcome(None, Request(Patch, "/user/login", [RemoveLocalToken, Navigate("/login")]))
      else
        Outcome(Some(text), Request(Patch, "/user/login", []))
  }

  /** The form's submit: nothing at all while the schema fails, otherwise
      `onSubmit`, whose first act is to clear the error line. */
  function Submit(prev: Option<string>, v: Values, st: Session.Store, reply: Reply): (r: Outcome)
    ensures !Valid(v) ==> r == Outcome(prev, [])
    ensures Valid(v) ==> r == Respond(st, reply)
    ensures Sends(r.effects) ==> Valid(v) && Truthy(st.local)
  {
    if Valid(v) then Respond(st, reply) else Outcome(prev, [])
  }

  /** A 401 whose body carries a message of its own only sets the error:
      the user stays signed in. */
  lemma UnauthorizedWithMessage(st: Session.Store, response: Response)
    requires Truthy(st.local) && response.status == 401
    requires Truthy(response.message) && response.message.value != BadToken
    ensures Respond(st, Answered(response)).error == response.message
    ensures Session.Run(st, Respond(st, Answered(response)).effects) == st
  {
    assert !TouchesToken(Respond(st, Answered(response)).effects);
    Session.RunWithoutTokenOps(st, Respond(st, Answered(response)).effects);
  }

  /** What a submit does to the token store: it drops the localStorage token
      exactly when the failure text is the bad-token text, and otherwise
      leaves both stores as they were. */
  lemma StoreAfterSubmit(prev: Option<string>, v: Values, st: Session.Store, reply: Reply)
    ensures var r := Submit(prev, v, st, reply);
      var after := Session.Run(st, r.effects);
      && after.session == st.session
      && (after.local.None? || after == st)
      && (after != st <==>
            Valid(v) && Truthy(st.local) && !(reply.Answered? && IsOk(reply.response.status))
            && FailureText(reply) == BadToken)
  {
    var r := Submit(prev, v, st, reply);
    if RemoveLocalToken in r.effects {
      assert r.effects == [Send(Patch, "/user/login")] + [RemoveLocalToken, Navigate("/login")];
      Session.RunAppend(st, [Send(Patch, "/user/login")], [RemoveLocalToken, Navigate("/login")]);
    } else {
      assert !TouchesToken(r.effects);
      Session.RunWithoutTokenOps(st, r.effects);
    }
  }
}
