/** The sign-in form of src/components/auth/LoginForm.tsx: a mount-time
    redirect for users who are already signed in, the schema, and `onSubmit`,
    which stores the returned token or shows why sign-in failed. */
module LoginForm {
  import opened Options
  import opened Http
  import opened Schema
  import Session

  const ForumRoute := "/forum"
  const InvalidInput := "A bevitt adatok érvénytelenek."
  const WrongCredentials := "Hibás felhasználónév vagy jelszó."
  const UnknownError := "Ismeretlen hiba történt."

  /** The mount effect: with a truthy localStorage token, on to the forum list. */
  function Mount(st: Session.Store): (effects: seq<Effect>)
    ensures Truthy(st.local) <==> effects == [Navigate(ForumRoute)]
    ensures !Truthy(st.local) <==> effects == []
  {
    if Truthy(st.local) then [Navigate(ForumRoute)] else []
  }

  /** `validationSchema`: a filled-in e-mail address and a password that
      follows the password rule. */
  predicate Valid(isEmail: string -> bool, username: string, password: string) {
    Required(username) && isEmail(username) && StrongPassword(password) && Required(password)
  }

  /** The password's `.required()` adds nothing: validity is a filled-in
      e-mail address and a password that follows the rule. */
  lemma ValidIff(isEmail: string -> bool, username: string, password: string)
    ensures Valid(isEmail, username, password) <==>
      Required(username) && isEmail(username) && StrongPassword(password)
  {
    StrongIsRequired(password);
  }

  /** What `localStorage.setItem` stores for the `accessToken` field: the
      string itself, or "undefined" when the body has none. A JSON `null`
      field, which would be stored as "null", is folded into the missing
      case: both leave a truthy non-token string behind. */
  function TokenText(accessToken: Option<string>): (r: string)
    // a body without a token still leaves a non-empty, truthy string behind
    ensures r == "" <==> accessToken == Some("")
    ensures accessToken.None? ==> Truthy(Some(r))
  {
    match accessToken
    case Some(t) => t
    case None => "undefined"
  }

  /** The status defaults when the body has no `message`. */
  function DefaultText(status: nat): (r: string)
    // each status the switch names has a text of its own; the rest share one
    ensures r == InvalidInput <==> status == 400
    ensures r == WrongCredentials <==> status == 401
    ensures r in {InvalidInput, WrongCredentials, UnknownError}
  {
    if status == 400 then InvalidInput
    else if status == 401 then WrongCredentials
    else UnknownError
  }

  /** `onSubmit` once the schema has passed: the POST and its outcome. */
  function Respond(reply: Reply): (r: Outcome)
    ensures Sends(r.effects) && r.effects[0] == Send(Post, "/user/login")
    // accepted: the token is stored, then the forum list is shown
    ensures reply.Answered? && IsOk(reply.response.status) ==>
      r == Outcome(None, [Send(Post, "/user/login"),
                          StoreToken(TokenText(reply.response.accessToken)), Navigate(ForumRoute)])
    // refused: the server's message, else the status default; no token is written
    ensures reply.Answered? && !IsOk(reply.response.status) ==>
      r.error == Some(OrElse(reply.response.message, DefaultText(reply.response.status)))
    ensures reply.Thrown? ==> r.error == Some(reply.reason)
    ensures r.error.Some? ==> r.effects == [Send(Post, "/user/login")]
    ensures r.error.None? <==> reply.Answered? && IsOk(reply.response.status)
  {
    match reply
    case Thrown(reason) => Outcome(Some(reason), Request(Post, "/user/login", []))
    case Answered(response) =>
      if IsOk(response.status) then
        Outcome(None, Request(Post, "/user/login",
                              [StoreToken(TokenText(response.accessToken)), Navigate(ForumRoute)]))
      else
        Outcome(Some(OrElse(response.message, DefaultText(response.status))), Request(Post, "/user/login", []))
  }

  /** The form's submit: nothing while the schema fails; otherwise `onSubmit`,
      which first clears the error line. */
  function Submit(prev: Option<string>, isEmail: string -> bool, username: string, password: string, reply: Reply)
    : (r: Outcome)
    ensures !Valid(isEmail, username, password) ==> r == Outcome(prev, [])
    ensures Valid(isEmail, username, password) ==> r == Respond(reply)
    ensures Sends(r.effects) <==> Valid(isEmail, username, password)
  {
    if Valid(isEmail, username, password) then Respond(reply) else Outcome(prev, [])
  }

  /** A failed sign-in leaves the token store exactly as it was; a
      successful one stores the returned token in localStorage, after which
      the mount redirect sends the user on to the forum list. */
  lemma SignInStoresToken(st: Session.Store, reply: Reply)
    ensures var r := Respond(reply);
      var after := Session.Run(st, r.effects);
      && (r.error.Some? ==> after == st)
      && (r.error.None? ==> after == Session.SetToken(st, TokenText(reply.response.accessToken)))
      && (r.error.None? && TokenText(reply.response.accessToken) != "" ==>
            Session.GetToken(after) == Some(TokenText(reply.response.accessToken))
            && Mount(after) == [Navigate(ForumRoute)])
  {
    var r := Respond(reply);
    if r.error.Some? {
      assert !TouchesToken(r.effects);
      Session.RunWithoutTokenOps(st, r.effects);
    } else {
      var t := TokenText(reply.response.accessToken);
      Session.RunAppend(st, [Send(Post, "/user/login"), StoreToken(t)], [Navigate(ForumRoute)]);
      assert r.effects == [Send(Post, "/user/login"), StoreToken(t)] + [Navigate(ForumRoute)];
      Session.RunAppend(st, [Send(Post, "/user/login")], [StoreToken(t)]);
      Session.RunSingle(st, Send(Post, "/user/login"));
      Session.RunSingle(st, StoreToken(t));
      assert [Send(Post, "/user/login")] + [StoreToken(t)] == [Send(Post, "/user/login"), StoreToken(t)];
      assert !TouchesToken([Navigate(ForumRoute)]);
      Session.RunWithoutTokenOps(Session.SetToken(st, t), [Navigate(ForumRoute)]);
      if t != "" {
        Session.GetAfterSet(st, t);
      }
    }
  }
}
