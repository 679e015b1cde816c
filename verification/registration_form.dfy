/** The sign-up form of src/models/components/auth/RegistrationForm.tsx:
    the schema, `handleSubmit`, which creates the user and signs them in,
    and `handleCancel`. */
module RegistrationForm {
  import opened Options
  import opened Http
  import opened Schema
  import Session
  import LoginForm

  const InvalidInput := "A bevitt adatok érvénytelenek."
  const UserExists := "A felhasználó már létezik."
  const UnknownError := "Ismeretlen hiba történt."

  datatype Values = Values(username: string, password: string, passwordConfirm: string,
                           firstName: string, lastName: string)

  /** `validationSchema`: a filled-in e-mail address, a password that follows
      the password rule, its confirmation, and both names. */
  predicate Valid(isEmail: string -> bool, v: Values) {
    && Required(v.username) && isEmail(v.username)
    && StrongPassword(v.password) && Required(v.password)
    && v.passwordConfirm == v.password && Required(v.passwordConfirm)
    && Required(v.firstName) && Required(v.lastName)
  }

  /** The password's and the confirmation's `.required()` add nothing: a
      confirmation equal to a password that follows the rule is filled in. */
  lemma ValidIff(isEmail: string -> bool, v: Values)
    ensures Valid(isEmail, v) <==>
      && Required(v.username) && isEmail(v.username)
      && StrongPassword(v.password) && v.passwordConfirm == v.password
      && Required(v.firstName) && Required(v.lastName)
  {
    StrongIsRequired(v.password);
  }

  /** The status defaults when the body has no `message`. */
  function DefaultText(status: nat): (r: string)
    // each status the switch names has a text of its own; the rest share one
    ensures r == InvalidInput <==> status == 400
    ensures r == UserExists <==> status == 409
    ensures r in {InvalidInput, UserExists, UnknownError}
  {
    if status == 400 then InvalidInput
    else if status == 409 then UserExists
    else UnknownError
  }

  /** `handleSubmit` once the schema has passed: the POST and its outcome. */
  function Respond(reply: Reply): (r: Outcome)
    ensures Sends(r.effects) && r.effects[0] == Send(Post, "/user")
    // created: the token is stored, a notice shown, the form reset, then the profile page
    ensures reply.Answered? && IsOk(reply.response.status) ==>
      r == Outcome(None, [Send(Post, "/user"), StoreToken(LoginForm.TokenText(reply.response.accessToken)),
                          SuccessNotice, ResetForm, Navigate("/profile")])
    // refused: the server's message, else the status default
    ensures reply.Answered? && !IsOk(reply.response.status) ==>
      r.error == Some(OrElse(reply.response.message, DefaultText(reply.response.status)))
    ensures reply.Thrown? ==> r.error == Some(reply.reason)
    // every failure is repeated in an error toast, and nothing else happens
    ensures r.error.Some? ==> r.effects == [Send(Post, "/user"), ErrorNotice(r.error.value)]
    ensures r.error.None? <==> reply.Answered? && IsOk(reply.response.status)
  {
    match reply
    case Thrown(reason) => Outcome(Some(reason), Request(Post, "/user", [ErrorNotice(reason)]))
    case Answered(response) =>
      if IsOk(response.status) then
        Outcome(None, Request(Post, "/user", [StoreToken(LoginForm.TokenText(response.accessToken)),
                                              SuccessNotice, ResetForm, Navigate("/profile")]))
      else
        var text := OrElse(response.message, DefaultText(response.status));
        Outcome(Some(text), Request(Post, "/user", [ErrorNotice(text)]))
  }

  /** The form's submit: nothing while the schema fails; otherwise
      `handleSubmit`, which first clears the error line. */
  function Submit(prev: Option<string>, isEmail: string -> bool, v: Values, reply: Reply): (r: Outcome)
    ensures !Valid(isEmail, v) ==> r == Outcome(prev, [])
    ensures Valid(isEmail, v) ==> r == Respond(reply)
    ensures Sends(r.effects) <==> Valid(isEmail, v)
  {
    if Valid(isEmail, v) then Respond(reply) else Outcome(prev, [])
  }

  /** `handleCancel`: back to the sign-in page, without a request and
      without touching the token store. */
  function Cancel(): (effects: seq<Effect>)
    ensures !Sends(effects) && !TouchesToken(effects)
    ensures |effects| == 1 && effects[0] == Navigate("/login")
  {
    [Navigate("/login")]
  }

  /** A refused sign-up never touches the token store; an accepted one
      leaves the returned token in localStorage. */
  lemma SignUpStoresToken(st: Session.Store, reply: Reply)
    ensures var r := Respond(reply);
      var after := Session.Run(st, r.effects);
      && (r.error.Some? ==> after == st)
      && (r.error.None? ==> after == Session.SetToken(st, LoginForm.TokenText(reply.response.accessToken)))
  {
    var r := Respond(reply);
    if r.error.Some? {
      assert !TouchesToken(r.effects);
      Session.RunWithoutTokenOps(st, r.effects);
    } else {
      var t := LoginForm.TokenText(reply.response.accessToken);
      var rest := [SuccessNotice, ResetForm, Navigate("/profile")];
      assert r.effects == [Send(Post, "/user")] + [StoreToken(t)] + rest;
      Session.RunAppend(st, [Send(Post, "/user")] + [StoreToken(t)], rest);
      Session.RunAppend(st, [Send(Post, "/user")], [StoreToken(t)]);
      Session.RunSingle(st, Send(Post, "/user"));
      Session.RunSingle(st, StoreToken(t));
      assert !TouchesToken(rest);
      Session.RunWithoutTokenOps(Session.SetToken(st, t), rest);
    }
  }
}
