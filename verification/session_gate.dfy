/** The mount-time check that guards the signed-in pages: `fetchUserData` as
    written, word for word, in src/models/components/pages/ForumPage.tsx,
    src/models/components/pages/Profile.tsx, src/components/pages/Profile.tsx
    and src/components/auth/UpdateUserForm.tsx. It reads the localStorage
    token only; sessionStorage plays no part. */
module SessionGate {
  import opened Options
  import opened Http
  import Session

  const LoginRoute := "/login"
  const FetchFailed := "Hiba történt az adatok lekérése során."

  /** The redirect to the login page after the token has been dropped. */
  const Expel: seq<Effect> := [RemoveLocalToken, Navigate(LoginRoute)]

  /** `fetchUserData` with the token store and the reply GET /user would get.
      It runs on mount, while the page's error is still null. */
  function LoadUser(st: Session.Store, reply: Reply): (r: Outcome)
    // no token: straight to the login page, without a request
    ensures !Truthy(st.local) ==> r == Outcome(None, [Navigate(LoginRoute)])
    ensures Sends(r.effects) <==> Truthy(st.local)
    ensures Truthy(st.local) ==> r.effects[0] == Send(Get, "/user")
    // the user is loaded exactly when a token was there and the server accepted it
    ensures StoreUser in r.effects <==> Truthy(st.local) && reply.Answered? && IsOk(reply.response.status)
    ensures StoreUser in r.effects ==> r == Outcome(None, [Send(Get, "/user"), StoreUser])
    // rejected: the token is dropped and the login page shown; no error text
    ensures Truthy(st.local) && reply.Answered? && !IsOk(reply.response.status) ==>
      r == Outcome(None, [Send(Get, "/user")] + Expel)
    // the request failed: the same, with the fetch-failure text
    ensures Truthy(st.local) && reply.Thrown? ==>
      r == Outcome(Some(FetchFailed), [Send(Get, "/user")] + Expel)
  {
    if !Truthy(st.local) then Outcome(None, [Navigate(LoginRoute)])
    else
      match reply
      case Thrown(_) => Outcome(Some(FetchFailed), Request(Get, "/user", Expel))
      case Answered(response) =>
        if IsOk(response.status) then Outcome(None, Request(Get, "/user", [StoreUser]))
        else Outcome(None, Request(Get, "/user", Expel))
  }

  /** The gate's promise: afterwards either the user is loaded and the token
      kept, or the page has moved to the login page and no truthy token is
      left in localStorage. */
  lemma GateHolds(st: Session.Store, reply: Reply)
    ensures var r := LoadUser(st, reply);
      var after := Session.Run(st, r.effects);
      || (StoreUser in r.effects && after == st && Truthy(after.local))
      || (StoreUser !in r.effects && r.effects[|r.effects| - 1] == Navigate(LoginRoute)
          && !Truthy(after.local) && after.session == st.session)
  {
    var r := LoadUser(st, reply);
    if StoreUser in r.effects {
      assert r.effects == [Send(Get, "/user"), StoreUser];
      assert !TouchesToken(r.effects);
      Session.RunWithoutTokenOps(st, r.effects);
    } else if Truthy(st.local) {
      Session.RunAppend(st, [Send(Get, "/user")], Expel);
      Session.RunAppend(st, [Send(Get, "/user"), RemoveLocalToken], [Navigate(LoginRoute)]);
    } else {
      assert !TouchesToken(r.effects);
      Session.RunWithoutTokenOps(st, r.effects);
    }
  }
}
