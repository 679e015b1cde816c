/** The forum list page of src/models/components/pages/ForumPage.tsx: its
    filters live in the URL's query string, it can narrow the list to the
    signed-in user's own forums, and it deletes forums. */
module ModelsForumPage {
  import opened Options
  import opened Http
  import opened QueryParams
  import opened Entities
  import Session
  import SessionGate
  import Text

  const UsersFirst := "usersFirst"
  const NoDeletePermission := "Nincs jogosultságod a fórum törléséhez."

  /** The mount-time session check: the user is loaded only with an accepted
      token; otherwise the page ends on the login page with no truthy token. */
  function LoadUser(st: Session.Store, reply: Reply): (r: Outcome)
    ensures Sends(r.effects) <==> Truthy(st.local)
    ensures StoreUser in r.effects <==> Truthy(st.local) && reply.Answered? && IsOk(reply.response.status)
    ensures StoreUser !in r.effects ==>
      Navigate(SessionGate.LoginRoute) in r.effects && !Truthy(Session.Run(st, r.effects).local)
  {
    SessionGate.GateHolds(st, reply);
    SessionGate.LoadUser(st, reply)
  }

  /** `updateQueryParams(params)` on the current `location.search`: the new
      query string the page navigates to. */
  function UpdateQueryParams(search: Pairs, params: Pairs): (r: Pairs)
    requires DistinctNames(params)
    ensures forall i :: 0 <= i < |params| ==>
      (Has(r, params[i].0) <==> params[i].1 != "")
    ensures forall i :: 0 <= i < |params| && params[i].1 != "" ==>
      Only(r, params[i].0) == [params[i]]
    ensures forall k :: !Has(params, k) ==> Only(r, k) == Only(search, k)
  {
    var r := Update(search, params);
    forall i | 0 <= i < |params| ensures Has(r, params[i].0) <==> params[i].1 != "" {
      HasIffOnly(r, params[i].0);
    }
    r
  }

  /** Updating the query string a second time with the same values changes nothing. */
  lemma UpdateQueryParamsIdempotent(search: Pairs, params: Pairs)
    requires DistinctNames(params)
    ensures UpdateQueryParams(UpdateQueryParams(search, params), params) == UpdateQueryParams(search, params)
  {
    UpdateIdempotent(search, params);
  }

  /** The filter inputs (search text, dates, order) each update one parameter
      when they lose focus or change. */
  function FilterChanged(search: Pairs, name: string, value: string): (r: Pairs)
    ensures Has(r, name) <==> value != ""
    ensures value != "" ==> QueryParams.Get(r, name) == Some(value)
    ensures forall k :: k != name ==> Only(r, k) == Only(search, k)
  {
    var params := [(name, value)];
    var r := UpdateQueryParams(search, params);
    assert params[0] == (name, value);
    assert forall k :: k != name ==> !Has(params, k);
    r
  }

  /** `handleToggleUserForums`: the flag flips, and the query string gets
      `usersFirst=true` when it turns on and loses `usersFirst` when it turns
      off. Every other parameter is left as it was. */
  function ToggleUserForums(showOnly: bool, search: Pairs): (r: (bool, Pairs))
    ensures r.0 == !showOnly
    ensures !showOnly ==> Only(r.1, UsersFirst) == [(UsersFirst, "true")]
    ensures showOnly ==> Only(r.1, UsersFirst) == []
    ensures forall k :: k != UsersFirst ==> Only(r.1, k) == Only(search, k)
  {
    (!showOnly, FilterChanged(search, UsersFirst, if !showOnly then "true" else ""))
  }

  /** After a toggle the query string agrees with the flag; after two, the
      flag is back and the other parameters are untouched. */
  lemma ToggleTwice(showOnly: bool, search: Pairs)
    ensures var once := ToggleUserForums(showOnly, search);
      Has(once.1, UsersFirst) <==> once.0
    ensures var twice := ToggleUserForums(ToggleUserForums(showOnly, search).0, ToggleUserForums(showOnly, search).1);
      && twice.0 == showOnly
      && (Has(twice.1, UsersFirst) <==> showOnly)
      && (forall k :: k != UsersFirst ==> Only(twice.1, k) == Only(search, k))
  {
    var once := ToggleUserForums(showOnly, search);
    var twice := ToggleUserForums(once.0, once.1);
    HasIffOnly(once.1, UsersFirst);
    HasIffOnly(twice.1, UsersFirst);
  }

  /** `b` contains the elements of `a` in the same order, possibly with others between. */
  predicate Subsequence<T(==)>(a: seq<T>, b: seq<T>)
    decreases |b|
  {
    if |a| == 0 then true
    else if |b| == 0 then false
    else (a[0] == b[0] && Subsequence(a[1..], b[1..])) || Subsequence(a, b[1..])
  }

  /** The forums created by the user with id `userId`, in list order. */
  function Owned(forums: seq<Forum>, userId: string): (r: seq<Forum>)
    ensures Subsequence(r, forums)
    ensures forall i :: 0 <= i < |r| ==> OwnedBy(r[i], userId)
    ensures forall f :: multiset(r)[f] == if OwnedBy(f, userId) then multiset(forums)[f] else 0
  {
    if |forums| == 0 then []
    else
      var rest := Owned(forums[1..], userId);
      assert forums == [forums[0]] + forums[1..];
      if OwnedBy(forums[0], userId) then
        var r := [forums[0]] + rest;
        assert r[1..] == rest;
        r
      else
        rest
  }

  /** `filteredForums`: with the flag on and the user loaded, exactly the
      user's own forums in list order; otherwise the whole list. */
  function FilteredForums(showOnly: bool, user: Option<User>, forums: seq<Forum>): (r: seq<Forum>)
    ensures Subsequence(r, forums)
    ensures !(showOnly && user.Some?) ==> r == forums
    ensures showOnly && user.Some? ==>
      && (forall i :: 0 <= i < |r| ==> OwnedBy(r[i], user.value.userId))
      && (forall f :: OwnedBy(f, user.value.userId) ==> multiset(r)[f] == multiset(forums)[f])
  {
    if showOnly && user.Some? then Owned(forums, user.value.userId)
    else
      SubsequenceRefl(forums);
      forums
  }

  lemma {:induction false} SubsequenceRefl<T>(a: seq<T>)
    ensures Subsequence(a, a)
    decreases |a|
  {
    if |a| > 0 {
      SubsequenceRefl(a[1..]);
    }
  }

  /** `fetchForums` with the current query string, the reply, and the list in
      its body. The error is not reset: a successful load leaves it as it was. */
  function FetchForums(prev: Option<string>, forums: seq<Forum>, search: Pairs, reply: Reply, body: seq<Forum>)
    : (r: (Outcome, seq<Forum>))
    ensures r.0.effects == [Send(Get, "/forum?" + Serialize(search))]
    ensures reply.Answered? && IsOk(reply.response.status) ==> r == (Outcome(prev, r.0.effects), body)
    ensures reply.Answered? && !IsOk(reply.response.status) ==>
      r.0.error == Some(StatusError(reply.response.status) + " - " + reply.response.statusText)
      && r.1 == forums
    ensures reply.Thrown? ==> r.0.error == Some(reply.reason) && r.1 == forums
  {
    var sent := [Send(Get, "/forum?" + Serialize(search))];
    match reply
    case Thrown(reason) => (Outcome(Some(reason), sent), forums)
    case Answered(response) =>
      if IsOk(response.status) then (Outcome(prev, sent), body)
      else (Outcome(Some(StatusError(response.status) + " - " + response.statusText), sent), forums)
  }

  /** `handleConfirmDelete`: nothing without a selected forum; a refused
      deletion (403) says so, other failures show the status, and every
      failure is repeated in an error toast with the dialog left open; a
      success reloads the list and closes the dialog, error left as it was. */
  function ConfirmDelete(prev: Option<string>, forumToDelete: Option<string>, reply: Reply): (r: Outcome)
    ensures Sends(r.effects) <==> Truthy(forumToDelete)
    ensures !Truthy(forumToDelete) ==> r == Outcome(prev, [])
    ensures Truthy(forumToDelete) ==> r.effects[0] == Send(Delete, "/forum/" + forumToDelete.value)
    ensures Truthy(forumToDelete) && reply.Answered? && reply.response.status == 403 ==>
      r.error == Some(NoDeletePermission)
    ensures Truthy(forumToDelete) && reply.Answered? && reply.response.status != 403
            && !IsOk(reply.response.status) ==>
      r.error == Some(StatusError(reply.response.status))
    ensures Truthy(forumToDelete) && reply.Thrown? ==> r.error == Some(reply.reason)
    ensures Truthy(forumToDelete) && !(reply.Answered? && IsOk(reply.response.status)) ==>
      && r.error.Some?
      && r.effects[|r.effects| - 1] == ErrorNotice(r.error.value)
      && Refetch !in r.effects && CloseDialog !in r.effects
    ensures Truthy(forumToDelete) && reply.Answered? && IsOk(reply.response.status) ==>
      && r.error == prev
      && Precedes(r.effects, Refetch, CloseDialog)
      && Precedes(r.effects, CloseDialog, SuccessNotice)
  {
    if !Truthy(forumToDelete) then Outcome(prev, [])
    else
      var path := "/forum/" + forumToDelete.value;
      match reply
      case Thrown(reason) => Outcome(Some(reason), Request(Delete, path, [ErrorNotice(reason)]))
      case Answered(response) =>
        if !IsOk(response.status) then
          var message := if response.status == 403 then NoDeletePermission else StatusError(response.status);
          Outcome(Some(message), Request(Delete, path, [ErrorNotice(message)]))
        else
          var effects := Request(Delete, path, [Refetch, CloseDialog, SuccessNotice]);
          assert effects[1] == Refetch && effects[2] == CloseDialog && effects[3] == SuccessNotice;
          Outcome(prev, effects)
  }

  /** The no-permission text cannot be mistaken for a status text: every
      `HTTP error! status: N` begins with 'H'. */
  lemma NoDeletePermissionIsNoStatusError(n: nat)
    ensures NoDeletePermission != StatusError(n)
  {
    assert StatusError(n)[0] == 'H';
  }

  /** Deleting a forum never touches the token store; the list is reloaded
      and the dialog closed together, exactly when the server accepted the
      DELETE; and a refusal shows the no-permission text exactly when the
      status was 403. */
  lemma ConfirmDeleteOutcome(st: Session.Store, prev: Option<string>, forumToDelete: Option<string>, reply: Reply)
    ensures var r := ConfirmDelete(prev, forumToDelete, reply);
      && Session.Run(st, r.effects) == st
      && (Refetch in r.effects <==> CloseDialog in r.effects)
      && (Refetch in r.effects <==> Truthy(forumToDelete) && reply.Answered? && IsOk(reply.response.status))
      && (Truthy(forumToDelete) && reply.Answered? && !IsOk(reply.response.status) ==>
            (r.error == Some(NoDeletePermission) <==> reply.response.status == 403))
  {
    var r := ConfirmDelete(prev, forumToDelete, reply);
    assert !TouchesToken(r.effects);
    Session.RunWithoutTokenOps(st, r.effects);
    if reply.Answered? {
      NoDeletePermissionIsNoStatusError(reply.response.status);
    }
  }

  /** The list request carries the page's query string unchanged: the
      server parses it back into exactly the current parameters. Loading the
      list never touches the token store, and the list is replaced only by
      an accepted reply. */
  lemma FetchForumsSendsSearch(st: Session.Store, prev: Option<string>, forums: seq<Forum>, search: Pairs,
                               reply: Reply, body: seq<Forum>)
    requires Plain(search)
    ensures var r := FetchForums(prev, forums, search, reply, body);
      && |r.0.effects| == 1 && r.0.effects[0].Send? && r.0.effects[0].verb == Get
      && Text.StartsWith(r.0.effects[0].path, "/forum?")
      && Parse(r.0.effects[0].path[|"/forum?"|..]) == search
      && Session.Run(st, r.0.effects) == st
      && (r.1 != forums ==> reply.Answered? && IsOk(reply.response.status) && r.1 == body)
  {
    var r := FetchForums(prev, forums, search, reply, body);
    var path := "/forum?" + Serialize(search);
    assert r.0.effects[0].path == path;
    assert path[|"/forum?"|..] == Serialize(search);
    ParseSerialize(search);
    Session.RunSingle(st, r.0.effects[0]);
  }
}
