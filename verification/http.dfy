/** The vocabulary every handler shares: what a `fetch` call can come back
    with, the effects a handler has on the world outside its component, and
    the error strings built from status codes. */
module Http {
  import opened Options
  import opened Text

  datatype Method = Get | Post | Put | Patch | Delete

  /** A server response: the status code and status text, the `message` field
      of the JSON body (absent when the body has none), the body as raw text,
      and the `accessToken` field that login and registration return. */
  datatype Response = Response(
    status: nat,
    statusText: string,
    message: Option<string>,
    text: string,
    accessToken: Option<string>)

  /** What an awaited `fetch` produces: a response, or a rejection whose
      `Error.message` is `reason` (a network failure). */
  datatype Reply = Answered(response: Response) | Thrown(reason: string)

  /** `response.ok` */
  predicate IsOk(status: nat) {
    200 <= status <= 299
  }

  /** Effects on the world outside the component's own `error` state, in the
      order the handler causes them. */
  datatype Effect =
    | Send(verb: Method, path: string)    // a fetch to http://localhost:5000 + path
    | Navigate(route: string)
    | CloseDialog                         // the `onClose` prop, or closing a confirmation dialog
    | NotifyParent                        // the `onForumCreated` / `onCommentUpdated` / `onConfirm` prop
    | Refetch                             // reloading the list shown on the page
    | SuccessNotice                       // a success toast, or `alert` in one variant
    | ErrorNotice(text: string)           // an error toast
    | StoreToken(token: string)           // localStorage.setItem('token', token)
    | RemoveLocalToken                    // localStorage.removeItem('token')
    | RemoveSessionToken                  // sessionStorage.removeItem('token')
    | ClearTokens                         // clearToken() of src/src/auth.ts
    | StoreUser                           // setUser / setUserData with the response body
    | ResetForm                           // Formik's resetForm()
    | EndSubmitting                       // Formik's setSubmitting(false)

  /** What a handler leaves behind: the component's `error` state and the
      effects it caused. */
  datatype Outcome = Outcome(error: Option<string>, effects: seq<Effect>)

  /** A request went out. */
  predicate Sends(effects: seq<Effect>) {
    exists i :: 0 <= i < |effects| && effects[i].Send?
  }

  /** A request, followed by the effects of handling its reply. */
  function Request(verb: Method, path: string, after: seq<Effect>): (r: seq<Effect>)
    ensures Sends(r) && r[0] == Send(verb, path)
  {
    var r := [Send(verb, path)] + after;
    assert r[0].Send?;
    r
  }

  /** The number of times `e` happens. */
  function Count(effects: seq<Effect>, e: Effect): nat {
    multiset(effects)[e]
  }

  /** Both happen, `a` strictly before `b`. */
  predicate Precedes(effects: seq<Effect>, a: Effect, b: Effect) {
    exists i, j :: 0 <= i < j < |effects| && effects[i] == a && effects[j] == b
  }

  /** Some token-store operation happens. */
  predicate TouchesToken(effects: seq<Effect>) {
    exists i :: 0 <= i < |effects| &&
      (effects[i].StoreToken? || effects[i].RemoveLocalToken? ||
       effects[i].RemoveSessionToken? || effects[i].ClearTokens?)
  }

  const HttpErrorPrefix := "HTTP error! status: "

  /** `HTTP error! status: ${response.status}` */
  function StatusError(status: nat): string {
    HttpErrorPrefix + NatToString(status)
  }

  /** The error text names the status: different statuses give different texts. */
  lemma StatusErrorInjective(a: nat, b: nat)
    ensures StatusError(a) == StatusError(b) ==> a == b
  {
    if StatusError(a) == StatusError(b) {
      assert NatToString(a) == StatusError(a)[|HttpErrorPrefix|..];
      assert NatToString(b) == StatusError(b)[|HttpErrorPrefix|..];
      NatToStringInjective(a, b);
    }
  }
}
