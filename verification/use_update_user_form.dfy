/** The `useUpdateUserForm` hook of src/components/auth/UpdateUserForm.ts.
    Unlike the other pages it asks the two-store `getToken`/`clearToken`
    helper for the token (taken to be the one in src/src/auth.ts, the only
    copy of that helper in this model), so a token kept only in
    sessionStorage counts, and its sign-out clears both stores.
    It keeps no error state: failures show only as toasts. */
module UseUpdateUserForm {
  import opened Options
  import opened Http
  import Session

  const LoginRoute := "/login"
  const InvalidInputNotice := "Invalid input data."
  const ConnectionNotice := "Failed to connect to the server."

  /** `handleLogout`: `clearToken()`, then sessionStorage's entry once more,
      then the login page. */
  const Logout: seq<Effect> := [ClearTokens, RemoveSessionToken, Navigate(LoginRoute)]

  /** After signing out, `getToken` finds nothing in either store. */
  lemma LogoutClearsBoth(st: Session.Store)
    ensures Session.Run(st, Logout) == Session.Empty
    ensures Session.GetToken(Session.Run(st, Logout)) == None
  {
    assert Logout == [ClearTokens] + [RemoveSessionToken] + [Navigate(LoginRoute)];
    Session.RunAppend(st, [ClearTokens] + [RemoveSessionToken], [Navigate(LoginRoute)]);
    Session.RunAppend(st, [ClearTokens], [RemoveSessionToken]);
    Session.RunSingle(st, ClearTokens);
    Session.RunSingle(Session.Empty, RemoveSessionToken);
    Session.RunSingle(Session.Empty, Navigate(LoginRoute));
  }

  /** `fetchData` on mount. */
  function Mount(st: Session.Store, reply: Reply): (effects: seq<Effect>)
    // no token in either store: the login page, without a request
    ensures !Truthy(Session.GetToken(st)) ==> effects == [Navigate(LoginRoute)]
    ensures Sends(effects) <==> Truthy(Session.GetToken(st))
    // the user is loaded exactly when the server accepted the token
    ensures Truthy(Session.GetToken(st)) && reply.Answered? && IsOk(reply.response.status) ==>
      effects == [Send(Get, "/user"), StoreUser]
    // a 401, any other refusal, and a failed request all sign the user out
    ensures Truthy(Session.GetToken(st)) && !(reply.Answered? && IsOk(reply.response.status)) ==>
      effects == [Send(Get, "/user")] + Logout
  {
    if !Truthy(Session.GetToken(st)) then [Navigate(LoginRoute)]
    else
      match reply
      case Thrown(_) => Request(Get, "/user", Logout)
      case Answered(response) =>
        if IsOk(response.status) then Request(Get, "/user", [StoreUser])
        else if response.status == 401 then Request(Get, "/user", Logout)
        else Request(Get, "/user", Logout)
  }

  /** After mounting, either the user is loaded with the store untouched, or
      the page is on its way to the login page with no token left anywhere. */
  lemma MountGate(st: Session.Store, reply: Reply)
    ensures var effects := Mount(st, reply);
      var after := Session.Run(st, effects);
      || (StoreUser in effects && after == st && Truthy(Session.GetToken(after)))
      || (StoreUser !in effects && effects[|effects| - 1] == Navigate(LoginRoute)
          && !Truthy(Session.GetToken(after)))
  {
    var effects := Mount(st, reply);
    if !Truthy(Session.GetToken(st)) || StoreUser in effects {
      assert !TouchesToken(effects);
      Session.RunWithoutTokenOps(st, effects);
    } else {
      Session.RunAppend(st, [Send(Get, "/user")], Logout);
      Session.RunSingle(st, Send(Get, "/user"));
      LogoutClearsBoth(st);
    }
  }

  /** `handleSubmit` with the token store and the reply the PUT would get. */
  function Submit(st: Session.Store, reply: Reply): (effects: seq<Effect>)
    ensures !Truthy(Session.GetToken(st)) ==> effects == [Navigate(LoginRoute)]
    ensures Sends(effects) <==> Truthy(Session.GetToken(st))
    ensures Truthy(Session.GetToken(st)) ==> effects[0] == Send(Put, "/user")
    // accepted: the new user is kept, a notice shown, then the profile page
    ensures Truthy(Session.GetToken(st)) && reply.Answered? && IsOk(reply.response.status) ==>
      effects == [Send(Put, "/user"), StoreUser, SuccessNotice, Navigate("/profile")]
    // 400: a notice about the input; the user stays where they are
    ensures Truthy(Session.GetToken(st)) && reply.Answered? && reply.response.status == 400 ==>
      effects == [Send(Put, "/user"), ErrorNotice(InvalidInputNotice)]
    // 401: signed out
    ensures Truthy(Session.GetToken(st)) && reply.Answered? && reply.response.status == 401 ==>
      effects == [Send(Put, "/user")] + Logout
    // any other refusal, and a failed request, read as a connection failure
    ensures Truthy(Session.GetToken(st)) && (reply.Thrown? || !IsOk(reply.response.status)) &&
            !(reply.Answered? && reply.response.status in {400, 401}) ==>
      effects == [Send(Put, "/user"), ErrorNotice(ConnectionNotice)]
  {
    if !Truthy(Session.GetToken(st)) then [Navigate(LoginRoute)]
    else
      match reply
      case Thrown(_) => Request(Put, "/user", [ErrorNotice(ConnectionNotice)])
      case Answered(response) =>
        if IsOk(response.status) then Request(Put, "/user", [StoreUser, SuccessNotice, Navigate("/profile")])
        else if response.status == 400 then Request(Put, "/user", [ErrorNotice(InvalidInputNotice)])
        else if response.status == 401 then Request(Put, "/user", Logout)
        else Request(Put, "/user", [ErrorNotice(ConnectionNotice)])
  }

  /** A submit signs the user out exactly on a 401; every other outcome
      leaves both stores as they were. */
  lemma SubmitSignsOutOnlyOn401(st: Session.Store, reply: Reply)
    ensures var after := Session.Run(st, Submit(st, reply));
      && (after != st ==> after == Session.Empty)
      && (Truthy(Session.GetToken(st)) ==>
            (Session.GetToken(after) == None <==> reply.Answered? && reply.response.status == 401))
  {
    var effects := Submit(st, reply);
    if Truthy(Session.GetToken(st)) && reply.Answered? && reply.response.status == 401 {
      Session.RunAppend(st, [Send(Put, "/user")], Logout);
      Session.RunSingle(st, Send(Put, "/user"));
      LogoutClearsBoth(st);
    } else {
      assert !TouchesToken(effects);
      Session.RunWithoutTokenOps(st, effects);
    }
  }
}
