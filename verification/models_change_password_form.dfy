/** The password change form of src/models/components/auth/ChangePasswordForm.tsx.
    It declares the same schema and the same status table as
    src/components/auth/ChangePasswordForm.tsx and differs only in showing
    its success notice as a toast rather than an `alert`, which both count
    as a SuccessNotice; the rules are therefore taken from that module. */
module ModelsChangePasswordForm {
  import opened Options
  import opened Http
  import opened Schema
  import Session
  import C = ChangePasswordForm

  /** `onSubmit` behind Formik's schema gate. */
  function Submit(prev: Option<string>, v: C.Values, st: Session.Store, reply: Reply): (r: Outcome)
    // the schema fails: nothing happens, the error line keeps what it showed
    ensures !(StrongPassword(v.oldPassword) && StrongPassword(v.password)
              && v.password != v.oldPassword && v.passwordConfirm == v.password) ==>
      r == Outcome(prev, [])
    // no token: the login page, without a request
    ensures C.Valid(v) && !Truthy(st.local) ==> r == Outcome(None, [Navigate("/login")])
    // accepted: the toast, then the profile page
    ensures C.Valid(v) && Truthy(st.local) && reply.Answered? && IsOk(reply.response.status) ==>
      r == Outcome(None, [Send(Patch, "/user/login"), SuccessNotice, Navigate("/profile")])
    // refused: the server's message wins over the status default (400, 401, 409, other)
    ensures C.Valid(v) && Truthy(st.local) && reply.Answered? && !IsOk(reply.response.status) ==>
      && (Truthy(reply.response.message) ==> C.FailureText(reply) == reply.response.message.value)
      && (!Truthy(reply.response.message) && reply.response.status == 409 ==>
            C.FailureText(reply) == C.SamePassword)
    // only the bad-token text signs the user out; any other text is shown
    ensures C.Valid(v) && Truthy(st.local) && !(reply.Answered? && IsOk(reply.response.status)) ==>
      && (C.FailureText(reply) == C.BadToken ==>
            && r.error.None? && Session.Run(st, r.effects).local.None?
            && r.effects[|r.effects| - 1] == Navigate("/login"))
      && (C.FailureText(reply) != C.BadToken ==>
            r.error == Some(C.FailureText(reply)) && Session.Run(st, r.effects) == st)
  {
    C.ValidIff(v);
    C.StoreAfterSubmit(prev, v, st, reply);
    C.Submit(prev, v, st, reply)
  }
}
