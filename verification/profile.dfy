/** The profile page of src/components/pages/Profile.tsx: the session gate
    on mount and four buttons, one of which signs the user out. */
module Profile {
  import opened Options
  import opened Http
  import Session
  import SessionGate

  /** The page's buttons. */
  datatype Button = SignOut | UpdateUser | ChangePassword | BackToForum

  /** Where each button leads. */
  function Target(b: Button): string {
    match b
    case SignOut => SessionGate.LoginRoute
    case UpdateUser => "/update"
    case ChangePassword => "/change-password"
    case BackToForum => "/forum"
  }

  /** `fetchUserData` on mount: the shared session gate. The error line is
      set only when the request itself failed. */
  function LoadUser(st: Session.Store, reply: Reply): (r: Outcome)
    ensures Sends(r.effects) <==> Truthy(st.local)
    ensures StoreUser in r.effects <==> Truthy(st.local) && reply.Answered? && IsOk(reply.response.status)
    ensures StoreUser !in r.effects ==>
      Navigate(SessionGate.LoginRoute) in r.effects && !Truthy(Session.Run(st, r.effects).local)
    ensures r.error.Some? <==> Truthy(st.local) && reply.Thrown?
    ensures r.error.Some? ==> r.error.value == SessionGate.FetchFailed
  {
    SessionGate.GateHolds(st, reply);
    SessionGate.LoadUser(st, reply)
  }

  /** `handleLogout`, `handleUpdateUser`, `handleChangePassword` and
      `handleBackToForum`: no request; only signing out touches a token. */
  function Clicked(b: Button): (effects: seq<Effect>)
    ensures !Sends(effects)
    ensures |effects| > 0 && effects[|effects| - 1] == Navigate(Target(b))
    ensures TouchesToken(effects) <==> b == SignOut
  {
    if b == SignOut then
      var effects := [RemoveLocalToken, Navigate(Target(b))];
      assert effects[0].RemoveLocalToken?;
      effects
    else [Navigate(Target(b))]
  }

  /** Each button leads somewhere different. */
  lemma TargetsDistinct(b1: Button, b2: Button)
    ensures Target(b1) == Target(b2) <==> b1 == b2
  {
  }

  /** Signing out drops the localStorage token only; sessionStorage keeps
      whatever it held. The other buttons leave the store alone. */
  lemma SignOutDropsLocalToken(st: Session.Store, b: Button)
    ensures var after := Session.Run(st, Clicked(b));
      && after.session == st.session
      && (b == SignOut ==> after.local.None?)
      && (b != SignOut ==> after == st)
  {
    if b == SignOut {
      Session.RunAppend(st, [RemoveLocalToken], [Navigate(Target(b))]);
      assert Clicked(b) == [RemoveLocalToken] + [Navigate(Target(b))];
      Session.RunSingle(st, RemoveLocalToken);
      Session.RunSingle(st.(local := None), Navigate(Target(b)));
    } else {
      Session.RunWithoutTokenOps(st, Clicked(b));
    }
  }
}
