/** The profile page of src/models/components/pages/Profile.tsx. Its handlers
    match those of src/components/pages/Profile.tsx line for line (only the
    styling differs), so it uses that module's definitions. */
module ModelsProfile {
  import opened Options
  import opened Http
  import Session
  import SessionGate
  import P = Profile

  /** `fetchUserData` on mount. */
  function LoadUser(st: Session.Store, reply: Reply): (r: Outcome)
    ensures !Truthy(st.local) ==> r == Outcome(None, [Navigate(SessionGate.LoginRoute)])
    ensures StoreUser in r.effects <==> Truthy(st.local) && reply.Answered? && IsOk(reply.response.status)
    ensures StoreUser !in r.effects ==>
      Navigate(SessionGate.LoginRoute) in r.effects && !Truthy(Session.Run(st, r.effects).local)
    ensures r.error.Some? <==> Truthy(st.local) && reply.Thrown?
    ensures r.error.Some? ==> r.error.value == SessionGate.FetchFailed
  {
    P.LoadUser(st, reply)
  }

  /** The four buttons: sign-out drops the localStorage token and nothing
      else; the others only navigate. */
  function Clicked(st: Session.Store, b: P.Button): (effects: seq<Effect>)
    ensures !Sends(effects)
    ensures |effects| > 0 && effects[|effects| - 1] == Navigate(P.Target(b))
    ensures b == P.SignOut ==> Session.Run(st, effects) == st.(local := None)
    ensures b != P.SignOut ==> Session.Run(st, effects) == st
  {
    P.SignOutDropsLocalToken(st, b);
    P.Clicked(b)
  }
}
