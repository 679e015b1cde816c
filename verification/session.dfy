/** The token store of src/src/auth.ts: the session token lives under the key
    'token' in localStorage or in sessionStorage. A user counts as signed in
    while the store holds a truthy token. */
module Session {
  import opened Options
  import opened Http

  /** The value under 'token' in localStorage and in sessionStorage. */
  datatype Store = Store(local: Option<string>, session: Option<string>)

  const Empty := Store(None, None)

  /** `getToken()`: the localStorage token wins when it is truthy; otherwise
      whatever sessionStorage holds, possibly nothing. */
  function GetToken(st: Store): (r: Option<string>)
    ensures r == st.local || r == st.session
    ensures Truthy(st.local) ==> r == st.local
    ensures r != st.local ==> !Truthy(st.local) && r == st.session
    // a null or empty localStorage value falls through to sessionStorage
    ensures !Truthy(st.local) ==> r == st.session
  {
    if Truthy(st.local) then st.local else st.session
  }

  /** `setToken(token)`: writes localStorage only. */
  function SetToken(st: Store, token: string): (r: Store)
    ensures r.session == st.session
    ensures r.local == Some(token)
  {
    st.(local := Some(token))
  }

  /** `clearToken()`: removes the token from both stores. */
  function ClearToken(st: Store): (r: Store)
    ensures r.local.None? && r.session.None?
  {
    Empty
  }

  /** After storing a non-empty token, `getToken` returns it. */
  lemma GetAfterSet(st: Store, token: string)
    requires token != ""
    ensures GetToken(SetToken(st, token)) == Some(token)
  {
  }

  /** Storing the empty string does not sign anybody in: `getToken` then
      falls back to whatever sessionStorage holds. */
  lemma GetAfterSetEmpty(st: Store)
    ensures GetToken(SetToken(st, "")) == st.session
  {
  }

  /** After `clearToken`, `getToken` returns null. */
  lemma GetAfterClear(st: Store)
    ensures GetToken(ClearToken(st)) == None
  {
  }

  /** Clearing twice is the same as clearing once. */
  lemma ClearIdempotent(st: Store)
    ensures ClearToken(ClearToken(st)) == ClearToken(st)
  {
  }

  /** One effect on the store; effects that are not token operations leave it alone. */
  function Apply(st: Store, e: Effect): Store {
    match e
    case StoreToken(t) => SetToken(st, t)
    case RemoveLocalToken => st.(local := None)
    case RemoveSessionToken => st.(session := None)
    case ClearTokens => ClearToken(st)
    case _ => st
  }

  /** The store after a handler's effects, applied in order. */
  function Run(st: Store, effects: seq<Effect>): Store
    decreases |effects|
  {
    if |effects| == 0 then st else Run(Apply(st, effects[0]), effects[1..])
  }

  /** Running one effect is applying it. */
  lemma RunSingle(st: Store, e: Effect)
    ensures Run(st, [e]) == Apply(st, e)
  {
    assert [e][1..] == [];
  }

  /** Running effects one list after another is running their concatenation. */
  lemma {:induction false} RunAppend(st: Store, a: seq<Effect>, b: seq<Effect>)
    ensures Run(st, a + b) == Run(Run(st, a), b)
    decreases |a|
  {
    if |a| > 0 {
      assert (a + b)[1..] == a[1..] + b;
      RunAppend(Apply(st, a[0]), a[1..], b);
    } else {
      assert a + b == b;
    }
  }

  /** Effects without a token operation leave the store as it was. */
  lemma {:induction false} RunWithoutTokenOps(st: Store, effects: seq<Effect>)
    requires !TouchesToken(effects)
    ensures Run(st, effects) == st
    decreases |effects|
  {
    if |effects| > 0 {
      assert !TouchesToken(effects[1..]) by {
        forall i | 0 <= i < |effects[1..]|
          ensures !(effects[1..][i].StoreToken? || effects[1..][i].RemoveLocalToken? ||
                    effects[1..][i].RemoveSessionToken? || effects[1..][i].ClearTokens?)
        {
          assert effects[1..][i] == effects[i + 1];
        }
      }
      RunWithoutTokenOps(st, effects[1..]);
    }
  }
}
