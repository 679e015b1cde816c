/** The forum list page of src/components/pages/ForumPage.tsx: here the
    filters are component state, and `fetchForums` builds the query string
    from them afresh on every change. */
module ForumPage {
  import opened Options
  import opened Http
  import opened QueryParams
  import opened Entities
  import Session

  /** The filter state: search text, date bounds, the "own forums first"
      flag and the sort order. */
  datatype Filters = Filters(query: string, after: string, before: string, usersFirst: bool, orderBy: string)

  const Initial := Filters("", "", "", false, "date.DESC")

  /** `String(usersFirst)`, appended only when the flag is set. */
  const TrueText := "true"

  /** The rank of each parameter name in the fixed order; 5 for any other name. */
  function Rank(name: string): nat {
    if name == "query" then 0
    else if name == "after" then 1
    else if name == "before" then 2
    else if name == "usersFirst" then 3
    else if name == "orderBy" then 4
    else 5
  }

  /** Names strictly ascend in the fixed order, so none repeats. */
  predicate Ascending(ps: Pairs) {
    forall i, j :: 0 <= i < j < |ps| ==> Rank(ps[i].0) < Rank(ps[j].0)
  }

  /** The parameter names in the order `fetchForums` tries them. */
  const Names: seq<string> := ["query", "after", "before", "usersFirst", "orderBy"]

  lemma RankOfNames()
    ensures |Names| == 5
    ensures forall i :: 0 <= i < |Names| ==> Rank(Names[i]) == i
  {
    assert Rank(Names[0]) == 0 && Rank(Names[1]) == 1 && Rank(Names[2]) == 2;
    assert Rank(Names[3]) == 3 && Rank(Names[4]) == 4;
  }

  /** Every parameter `fetchForums` may append, in the order it tries them,
      each with the value it would append; a cleared flag has the empty value. */
  function Candidates(f: Filters): (c: Pairs)
    ensures |c| == |Names| && forall i :: 0 <= i < |c| ==> c[i].0 == Names[i]
  {
    [(Names[0], f.query), (Names[1], f.after), (Names[2], f.before),
     (Names[3], if f.usersFirst then TrueText else ""), (Names[4], f.orderBy)]
  }

  /** The entries whose value is non-empty, in order: each `if (value)
      params.append(name, value)` of `fetchForums`. */
  function KeepNonEmpty(ps: Pairs): (r: Pairs)
    ensures forall i :: 0 <= i < |r| ==> r[i].1 != "" && r[i] in ps
    ensures forall i :: 0 <= i < |ps| && ps[i].1 != "" ==> ps[i] in r
    ensures |r| <= |ps|
  {
    if |ps| == 0 then []
    else
      var rest := KeepNonEmpty(ps[1..]);
      assert forall i :: 1 <= i < |ps| ==> ps[i] == ps[1..][i - 1];
      if ps[0].1 != "" then [ps[0]] + rest else rest
  }

  lemma {:induction false} KeepNonEmptyAscending(ps: Pairs)
    requires Ascending(ps)
    ensures Ascending(KeepNonEmpty(ps))
    decreases |ps|
  {
    if |ps| > 0 {
      var rest := KeepNonEmpty(ps[1..]);
      KeepNonEmptyAscending(ps[1..]);
      forall x | x in rest ensures Rank(ps[0].0) < Rank(x.0) {
        var j :| 0 <= j < |ps[1..]| && ps[1..][j] == x;
        assert ps[j + 1] == x;
      }
    }
  }

  lemma {:induction false} OnlyKeepNonEmpty(ps: Pairs, k: string)
    ensures Only(KeepNonEmpty(ps), k) == KeepNonEmpty(Only(ps, k))
    decreases |ps|
  {
    if |ps| > 0 {
      var p := ps[0];
      var tail := Only(ps[1..], k);
      var head := if p.0 == k && p.1 != "" then [p] else [];
      OnlyKeepNonEmpty(ps[1..], k);
      if p.1 != "" {
        OnlyCons(p, KeepNonEmpty(ps[1..]), k);
      }
      assert Only(KeepNonEmpty(ps), k) == head + KeepNonEmpty(tail);
      assert ps == [p] + ps[1..];
      OnlyCons(p, ps[1..], k);
      if p.0 == k {
        assert Only(ps, k) == [p] + tail;
        assert ([p] + tail)[1..] == tail;
        assert KeepNonEmpty([p] + tail) == (if p.1 != "" then [p] else []) + KeepNonEmpty(tail);
      } else {
        assert Only(ps, k) == tail;
      }
    }
  }

  /** The parameters `fetchForums` appends, in the order query, after,
      before, usersFirst, orderBy, none with an empty value. */
  function SearchParams(f: Filters): (r: Pairs)
    ensures Ascending(r)
    ensures forall i :: 0 <= i < |r| ==> r[i].1 != "" && Rank(r[i].0) < 5
  {
    RankOfNames();
    KeepNonEmptyAscending(Candidates(f));
    KeepNonEmpty(Candidates(f))
  }

  /** The entries the filter state calls for under name `k`: a text filter
      when it is non-empty, the flag as "true" only when it is set, and
      nothing under any other name. */
  function Expected(f: Filters, k: string): Pairs {
    if k == "query" then Wanted((k, f.query))
    else if k == "after" then Wanted((k, f.after))
    else if k == "before" then Wanted((k, f.before))
    else if k == "usersFirst" then (if f.usersFirst then [(k, TrueText)] else [])
    else if k == "orderBy" then Wanted((k, f.orderBy))
    else []
  }

  /** Among distinctly named entries, each name picks out its own entry. */
  lemma {:induction false} OnlyDistinct(ps: Pairs, i: nat)
    requires DistinctNames(ps) && i < |ps|
    ensures Only(ps, ps[i].0) == [ps[i]]
    decreases |ps|
  {
    assert DistinctNames(ps[1..]) by {
      forall a, b | 0 <= a < b < |ps[1..]| ensures ps[1..][a].0 != ps[1..][b].0 {
        assert ps[1..][a] == ps[a + 1] && ps[1..][b] == ps[b + 1];
      }
    }
    if i == 0 {
      assert !Has(ps[1..], ps[0].0) by {
        forall j | 0 <= j < |ps[1..]| ensures ps[1..][j].0 != ps[0].0 {
          assert ps[1..][j] == ps[j + 1];
        }
      }
      HasIffOnly(ps[1..], ps[0].0);
    } else {
      OnlyDistinct(ps[1..], i - 1);
      assert ps[1..][i - 1] == ps[i];
    }
  }

  /** `KeepNonEmpty` on a single entry keeps it exactly when its value is non-empty. */
  lemma KeepSingle(p: (string, string))
    ensures KeepNonEmpty([p]) == Wanted(p)
  {
    assert [p][1..] == [];
  }

  lemma CandidatesDistinct(f: Filters)
    ensures DistinctNames(Candidates(f))
  {
    var c := Candidates(f);
    RankOfNames();
    forall a, b | 0 <= a < b < |c| ensures c[a].0 != c[b].0 {
      assert Rank(c[a].0) == a && Rank(c[b].0) == b;
    }
  }

  lemma ExpectedAt(f: Filters, i: nat)
    requires i < |Names|
    ensures Expected(f, Names[i]) == Wanted(Candidates(f)[i])
  {
    RankOfNames();
    if i == 3 {
      assert Names[i] == "usersFirst";
    }
  }

  lemma ContentsPresent(f: Filters, i: nat)
    requires i < |Names|
    ensures Only(SearchParams(f), Names[i]) == Expected(f, Names[i])
  {
    var c := Candidates(f);
    CandidatesDistinct(f);
    OnlyDistinct(c, i);
    OnlyKeepNonEmpty(c, Names[i]);
    KeepSingle(c[i]);
    ExpectedAt(f, i);
  }

  lemma ContentsAbsent(f: Filters, k: string)
    requires Rank(k) == 5
    ensures Only(SearchParams(f), k) == []
  {
    var c := Candidates(f);
    RankOfNames();
    assert !Has(c, k) by {
      forall j | 0 <= j < |c| ensures c[j].0 != k {
        assert Rank(c[j].0) == j;
      }
    }
    HasIffOnly(c, k);
    OnlyKeepNonEmpty(c, k);
  }

  /** Each name carries exactly the entries the filter state calls for. */
  lemma SearchParamsContents(f: Filters, k: string)
    ensures Only(SearchParams(f), k) == Expected(f, k)
  {
    RankOfNames();
    var i := Rank(k);
    if i < 5 {
      assert Names[i] == k;
      ContentsPresent(f, i);
    } else {
      ContentsAbsent(f, k);
    }
  }

  /** Reading a parameter back gives the value held in the filter state
      exactly when that value is non-empty, and "true" for a set flag. */
  lemma SearchParamsReadBack(f: Filters)
    ensures DistinctNames(SearchParams(f))
    ensures Has(SearchParams(f), "usersFirst") <==> f.usersFirst
    ensures QueryParams.Get(SearchParams(f), "query") == if f.query != "" then Some(f.query) else None
    ensures QueryParams.Get(SearchParams(f), "after") == if f.after != "" then Some(f.after) else None
    ensures QueryParams.Get(SearchParams(f), "before") == if f.before != "" then Some(f.before) else None
    ensures QueryParams.Get(SearchParams(f), "usersFirst") == if f.usersFirst then Some(TrueText) else None
    ensures QueryParams.Get(SearchParams(f), "orderBy") == if f.orderBy != "" then Some(f.orderBy) else None
  {
    SearchParamsContents(f, "query");
    SearchParamsContents(f, "after");
    SearchParamsContents(f, "before");
    SearchParamsContents(f, "usersFirst");
    SearchParamsContents(f, "orderBy");
    HasIffOnly(SearchParams(f), "usersFirst");
  }

  /** On first render the order parameter is there: the list is fetched
      newest first. */
  lemma InitialQuery()
    ensures SearchParams(Initial) == [("orderBy", "date.DESC")]
  {
  }

  /** The "own forums" button: the flag flips, so two presses restore it and
      the query goes back to what it was. */
  function ToggleUsersFirst(f: Filters): (r: Filters)
    ensures r.usersFirst == !f.usersFirst
    ensures r.query == f.query && r.after == f.after && r.before == f.before && r.orderBy == f.orderBy
    ensures Has(SearchParams(r), "usersFirst") != Has(SearchParams(f), "usersFirst")
  {
    SearchParamsReadBack(f);
    SearchParamsReadBack(f.(usersFirst := !f.usersFirst));
    f.(usersFirst := !f.usersFirst)
  }

  lemma ToggleTwice(f: Filters)
    ensures ToggleUsersFirst(ToggleUsersFirst(f)) == f
    ensures SearchParams(ToggleUsersFirst(ToggleUsersFirst(f))) == SearchParams(f)
  {
  }

  /** `fetchForums` with the filter state, the reply, and the list in its
      body. The error is not reset: a successful load leaves it as it was. */
  function FetchForums(prev: Option<string>, forums: seq<Forum>, f: Filters, reply: Reply, body: seq<Forum>)
    : (r: (Outcome, seq<Forum>))
    ensures r.0.effects == [Send(Get, "/forum?" + Serialize(SearchParams(f)))]
    ensures reply.Answered? && IsOk(reply.response.status) ==> r.0.error == prev && r.1 == body
    ensures reply.Answered? && !IsOk(reply.response.status) ==>
      r.0.error == Some(StatusError(reply.response.status) + " - " + reply.response.statusText)
      && r.1 == forums
    ensures reply.Thrown? ==> r.0.error == Some(reply.reason) && r.1 == forums
  {
    var sent := [Send(Get, "/forum?" + Serialize(SearchParams(f)))];
    match reply
    case Thrown(reason) => (Outcome(Some(reason), sent), forums)
    case Answered(response) =>
      if IsOk(response.status) then (Outcome(prev, sent), body)
      else (Outcome(Some(StatusError(response.status) + " - " + response.statusText), sent), forums)
  }

  /** `handleConfirmDelete`: nothing without a selected forum; a failure
      shows the status and leaves the dialog open; a success reloads the list,
      closes the dialog and shows a notice, leaving the error as it was. */
  function ConfirmDelete(prev: Option<string>, forumToDelete: Option<string>, reply: Reply): (r: Outcome)
    ensures Sends(r.effects) <==> Truthy(forumToDelete)
    ensures !Truthy(forumToDelete) ==> r == Outcome(prev, [])
    ensures Truthy(forumToDelete) ==> r.effects[0] == Send(Delete, "/forum/" + forumToDelete.value)
    ensures Truthy(forumToDelete) && reply.Answered? && !IsOk(reply.response.status) ==>
      r.error == Some(StatusError(reply.response.status))
    ensures Truthy(forumToDelete) && reply.Thrown? ==> r.error == Some(reply.reason)
    ensures Truthy(forumToDelete) && !(reply.Answered? && IsOk(reply.response.status)) ==>
      Refetch !in r.effects && CloseDialog !in r.effects && |r.effects| == 1
    ensures Truthy(forumToDelete) && reply.Answered? && IsOk(reply.response.status) ==>
      && r.error == prev && |r.effects| == 4
      && Precedes(r.effects, Refetch, CloseDialog)
      && Precedes(r.effects, CloseDialog, SuccessNotice)
  {
    if !Truthy(forumToDelete) then Outcome(prev, [])
    else
      var path := "/forum/" + forumToDelete.value;
      match reply
      case Thrown(reason) => Outcome(Some(reason), Request(Delete, path, []))
      case Answered(response) =>
        if !IsOk(response.status) then
          Outcome(Some(StatusError(response.status)), Request(Delete, path, []))
        else
          var effects := Request(Delete, path, [Refetch, CloseDialog, SuccessNotice]);
          assert effects[1] == Refetch && effects[2] == CloseDialog && effects[3] == SuccessNotice;
          Outcome(prev, effects)
  }

  /** Deleting a forum never touches the token store, and the list is
      reloaded and the dialog closed together, exactly when the server
      accepted the DELETE; a failure shows no toast. */
  lemma ConfirmDeleteOutcome(st: Session.Store, prev: Option<string>, forumToDelete: Option<string>, reply: Reply)
    ensures var r := ConfirmDelete(prev, forumToDelete, reply);
      && Session.Run(st, r.effects) == st
      && (Refetch in r.effects <==> CloseDialog in r.effects)
      && (Refetch in r.effects <==> Truthy(forumToDelete) && reply.Answered? && IsOk(reply.response.status))
      && (forall t :: ErrorNotice(t) !in r.effects)
  {
    var r := ConfirmDelete(prev, forumToDelete, reply);
    assert !TouchesToken(r.effects);
    Session.RunWithoutTokenOps(st, r.effects);
  }
}
