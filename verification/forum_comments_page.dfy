/** The comment list of one forum (src/components/pages/ForumCommentsPage.tsx):
    the paging state, the list request it drives, and comment deletion. */
module ForumCommentsPage {
  import opened Options
  import opened Text
  import opened Http
  import opened QueryParams
  import DeleteCommentConfirmation
  import Session

  /** The page sizes the limit selector offers. */
  const LimitOptions: set<nat> := {5, 10, 20, 50, 100}

  /** The paging state: page size, index of the first comment shown, sort
      order, and the total the server last reported. */
  datatype Paging = Paging(limit: nat, offset: nat, orderBy: string, total: nat)

  const Initial := Paging(20, 0, "DESC", 0)

  /** `x` is a whole number of pages of size `n`. */
  predicate MultipleOf(x: nat, n: nat)
    decreases x
  {
    x == 0 || (0 < n <= x && MultipleOf(x - n, n))
  }

  /** The page starts on a page boundary and its size is one the selector offers. */
  predicate PageAligned(p: Paging) {
    p.limit in LimitOptions && MultipleOf(p.offset, p.limit)
  }

  /** `handleLimitChange`: the new page size, back to the first page. */
  function ChangeLimit(p: Paging, value: nat): (r: Paging)
    ensures r.limit == value && r.offset == 0
    ensures r.orderBy == p.orderBy && r.total == p.total
  {
    p.(limit := value, offset := 0)
  }

  /** `handleOrderByChange`: the position in the list is kept. */
  function ChangeOrder(p: Paging, value: string): (r: Paging)
    ensures r.orderBy == value
    ensures r.limit == p.limit && r.offset == p.offset && r.total == p.total
  {
    p.(orderBy := value)
  }

  /** The "previous page" button is disabled on the first page. */
  predicate PreviousDisabled(p: Paging) {
    p.offset == 0
  }

  /** The "next page" button is disabled once the page reaches the total. */
  predicate NextDisabled(p: Paging) {
    p.offset + p.limit >= p.total
  }

  function Max(a: int, b: int): int {
    if a >= b then a else b
  }

  /** A click on "previous page": one page back, or to the very start when
      less than a page lies before; nothing when the button is disabled. */
  function Previous(p: Paging): (r: Paging)
    ensures PreviousDisabled(p) ==> r == p
    ensures r.offset <= p.offset
    ensures !PreviousDisabled(p) ==> r.offset == if p.offset >= p.limit then p.offset - p.limit else 0
    ensures !PreviousDisabled(p) && p.limit > 0 ==> r.offset < p.offset
    ensures r.limit == p.limit && r.orderBy == p.orderBy && r.total == p.total
  {
    if PreviousDisabled(p) then p else p.(offset := Max(p.offset - p.limit, 0))
  }

  /** A click on "next page": one page forward, which never starts past the
      last comment; nothing when the button is disabled. */
  function Next(p: Paging): (r: Paging)
    ensures NextDisabled(p) ==> r == p
    ensures !NextDisabled(p) ==> r.offset == p.offset + p.limit && r.offset < p.total
    ensures r.limit == p.limit && r.orderBy == p.orderBy && r.total == p.total
  {
    if NextDisabled(p) then p else p.(offset := p.offset + p.limit)
  }

  /** What the user or the server can do to the paging state. */
  datatype Event =
    | LimitSelected(value: nat)
    | OrderSelected(order: string)
    | PreviousClicked
    | NextClicked
    | TotalLoaded(total: nat)

  /** The limit selector only offers its listed sizes. */
  predicate Offered(e: Event) {
    e.LimitSelected? ==> e.value in LimitOptions
  }

  function Step(p: Paging, e: Event): Paging {
    match e
    case LimitSelected(v) => ChangeLimit(p, v)
    case OrderSelected(v) => ChangeOrder(p, v)
    case PreviousClicked => Previous(p)
    case NextClicked => Next(p)
    case TotalLoaded(t) => p.(total := t)
  }

  function Run(p: Paging, events: seq<Event>): Paging
    decreases |events|
  {
    if |events| == 0 then p else Run(Step(p, events[0]), events[1..])
  }

  lemma PreviousKeepsAlignment(p: Paging)
    requires PageAligned(p)
    ensures PageAligned(Previous(p))
  {
  }

  lemma NextKeepsAlignment(p: Paging)
    requires PageAligned(p)
    ensures PageAligned(Next(p))
  {
    if !NextDisabled(p) {
      assert (p.offset + p.limit) - p.limit == p.offset;
    }
  }

  /** Every offered event keeps the offset on a page boundary. */
  lemma StepKeepsAlignment(p: Paging, e: Event)
    requires PageAligned(p) && Offered(e)
    ensures PageAligned(Step(p, e))
  {
    match e
    case PreviousClicked => PreviousKeepsAlignment(p);
    case NextClicked => NextKeepsAlignment(p);
    case _ =>
  }

  lemma {:induction false} RunKeepsAlignment(p: Paging, events: seq<Event>)
    requires PageAligned(p)
    requires forall i :: 0 <= i < |events| ==> Offered(events[i])
    ensures PageAligned(Run(p, events))
    decreases |events|
  {
    if |events| > 0 {
      StepKeepsAlignment(p, events[0]);
      RunKeepsAlignment(Step(p, events[0]), events[1..]);
    }
  }

  /** Whatever the user clicks, the page size is one the selector offers and
      the page starts at a whole number of pages. */
  lemma ReachableOffsetsArePageBoundaries(events: seq<Event>)
    requires forall i :: 0 <= i < |events| ==> Offered(events[i])
    ensures var p := Run(Initial, events); p.limit in LimitOptions && MultipleOf(p.offset, p.limit)
  {
    RunKeepsAlignment(Initial, events);
  }

  // ---------------------------------------------------------------------
  // The list request.

  /** The query of `fetchComments`: limit, offset and order, in that order. */
  function Query(p: Paging): Pairs {
    [("limit", NatToString(p.limit)), ("offset", NatToString(p.offset)), ("orderBy", p.orderBy)]
  }

  function ListPath(forumId: string, p: Paging): string {
    "/forum/" + forumId + "/comments?" + Serialize(Query(p))
  }

  lemma DigitsAreUnreserved(s: string)
    requires AllDigits(s)
    ensures IsUnreserved(s)
  {
  }

  /** The server reads the query back as exactly the page size, offset and
      order the page holds, in that order. */
  lemma QueryReadsBack(p: Paging)
    requires p.orderBy in {"ASC", "DESC"}
    ensures Parse(Serialize(Query(p))) == Query(p)
    ensures QueryParams.Get(Query(p), "limit").Some? && QueryParams.Get(Query(p), "offset").Some?
    ensures DigitsValue(QueryParams.Get(Query(p), "limit").value) == p.limit
    ensures DigitsValue(QueryParams.Get(Query(p), "offset").value) == p.offset
  {
    DigitsAreUnreserved(NatToString(p.limit));
    DigitsAreUnreserved(NatToString(p.offset));
    var q := Query(p);
    assert Plain(q) by {
      forall i | 0 <= i < |q| ensures IsUnreserved(q[i].0) && IsUnreserved(q[i].1) {
      }
    }
    ParseSerialize(q);
    NatToStringRoundTrip(p.limit);
    NatToStringRoundTrip(p.offset);
  }

  /** `fetchComments` with the route's forum id, the reply, and the `total`
      of its body. Without a forum id nothing is requested. The error is not
      reset here: a successful load leaves it as it was. */
  function FetchComments(prev: Option<string>, forumId: string, p: Paging, reply: Reply, bodyTotal: nat)
    : (r: (Outcome, Paging))
    ensures forumId == "" ==> r == (Outcome(prev, []), p)
    ensures forumId != "" ==> r.0.effects == [Send(Get, ListPath(forumId, p))]
    ensures forumId != "" && reply.Answered? && IsOk(reply.response.status) ==>
      r.0.error == prev && r.1 == p.(total := bodyTotal)
    ensures forumId != "" && reply.Answered? && !IsOk(reply.response.status) ==>
      r.0.error == Some(StatusError(reply.response.status) + " - " + reply.response.statusText)
      && r.1 == p
    ensures forumId != "" && reply.Thrown? ==> r.0.error == Some(reply.reason) && r.1 == p
  {
    if forumId == "" then (Outcome(prev, []), p)
    else
      var sent := [Send(Get, ListPath(forumId, p))];
      match reply
      case Thrown(reason) => (Outcome(Some(reason), sent), p)
      case Answered(response) =>
        if !IsOk(response.status) then
          (Outcome(Some(StatusError(response.status) + " - " + response.statusText), sent), p)
        else
          (Outcome(prev, sent), p.(total := bodyTotal))
  }

  // ---------------------------------------------------------------------
  // Deleting a comment.

  function DeletePath(forumId: string, commentId: string): string {
    "/forum/" + forumId + "/comments/" + commentId
  }

  /** `handleConfirmDelete`: nothing without a selected comment and a forum
      id; a failure shows the status on the error line only; a success reloads
      the list, closes the dialog and shows a notice, leaving the error as it
      was. */
  function ConfirmDelete(prev: Option<string>, commentToDelete: Option<string>, forumId: string, reply: Reply)
    : (r: Outcome)
    ensures Sends(r.effects) <==> Truthy(commentToDelete) && forumId != ""
    ensures !Sends(r.effects) ==> r == Outcome(prev, [])
    ensures Sends(r.effects) ==>
      Count(r.effects, Send(Delete, DeletePath(forumId, commentToDelete.value))) == 1
    ensures Sends(r.effects) && reply.Answered? && !IsOk(reply.response.status) ==>
      r.error == Some(StatusError(reply.response.status)) && Refetch !in r.effects
      && CloseDialog !in r.effects
    ensures Sends(r.effects) && reply.Thrown? ==>
      r.error == Some(reply.reason) && Refetch !in r.effects && CloseDialog !in r.effects
    // a failure only sets the error line: the DELETE is the sole effect
    ensures Sends(r.effects) && !(reply.Answered? && IsOk(reply.response.status)) ==> |r.effects| == 1
    ensures Sends(r.effects) && reply.Answered? && IsOk(reply.response.status) ==>
      && r.error == prev && |r.effects| == 4
      && Precedes(r.effects, Refetch, CloseDialog)
      && Precedes(r.effects, CloseDialog, SuccessNotice)
  {
    if !(Truthy(commentToDelete) && forumId != "") then Outcome(prev, [])
    else
      var path := DeletePath(forumId, commentToDelete.value);
      match reply
      case Thrown(reason) => Outcome(Some(reason), Request(Delete, path, []))
      case Answered(response) =>
        if !IsOk(response.status) then
          Outcome(Some(StatusError(response.status)), Request(Delete, path, []))
        else
          var effects := Request(Delete, path, [Refetch, CloseDialog, SuccessNotice]);
          assert effects[1] == Refetch && effects[2] == CloseDialog && effects[3] == SuccessNotice;
          Outcome(prev, effects)
  }

  /** Deleting a comment never touches the token store, and the list is
      reloaded and the dialog closed together, exactly when the server
      accepted the DELETE. */
  lemma ConfirmDeleteOutcome(st: Session.Store, prev: Option<string>, commentToDelete: Option<string>,
                             forumId: string, reply: Reply)
    ensures var r := ConfirmDelete(prev, commentToDelete, forumId, reply);
      && Session.Run(st, r.effects) == st
      && (Refetch in r.effects <==> CloseDialog in r.effects)
      && (Refetch in r.effects <==>
            Truthy(commentToDelete) && forumId != "" && reply.Answered? && IsOk(reply.response.status))
  {
    var r := ConfirmDelete(prev, commentToDelete, forumId, reply);
    assert !TouchesToken(r.effects);
    Session.RunWithoutTokenOps(st, r.effects);
  }

  /** The confirm button as wired at line 150: the dialog imported at line 8
      expects `forumId` and `commentId` props, but the page passes neither,
      so the dialog's own guard returns before anything happens. */
  function ConfirmClickedAsWired(reply: Reply): (r: Outcome)
    ensures !Sends(r.effects) && NotifyParent !in r.effects
  {
    DeleteCommentConfirmation.Confirm(None, "", reply)
  }

  /** With a comment selected, the page's own deletion sends one DELETE, but
      the button as wired sends none and never reaches it. */
  lemma AsWiredNeverDeletes(prev: Option<string>, commentToDelete: Option<string>, forumId: string, reply: Reply)
    requires Truthy(commentToDelete) && forumId != ""
    ensures Sends(ConfirmDelete(prev, commentToDelete, forumId, reply).effects)
    ensures !Sends(ConfirmClickedAsWired(reply).effects)
  {
  }

  /** The confirm button as evidently intended: it calls the page's
      `onConfirm`, which is `handleConfirmDelete`, the way the view-only
      dialog does. A selected comment is then deleted with exactly one request. */
  function ConfirmClicked(prev: Option<string>, commentToDelete: Option<string>, forumId: string, reply: Reply)
    : (r: Outcome)
    ensures Truthy(commentToDelete) && forumId != "" ==>
      Count(r.effects, Send(Delete, DeletePath(forumId, commentToDelete.value))) == 1
    ensures !(Truthy(commentToDelete) && forumId != "") ==> !Sends(r.effects)
  {
    ConfirmDelete(prev, commentToDelete, forumId, reply)
  }
}
