# Forum client handlers in Dafny

This project models the decision logic inside the event handlers of a React
forum client. The client has forum and comment dialogs, a comment list with
paging, two forum-list pages, a session check that guards the signed-in
pages, and the sign-in, sign-up, password and profile forms. Rendering and
the network are left out. Each handler becomes a pure function from its
inputs to an `Http.Outcome`. An outcome holds two things:

- the component's `error` state afterwards;
- the ordered list of effects the handler causes: the request it sends, the
  route it navigates to, the callbacks to the parent, toasts, and writes to
  the token store.

The server's reply is an input value:

- `Answered(response)` carries the status, the JSON `message` field if
  present, the body text and `accessToken`;
- `Thrown(reason)` stands for a `fetch` that rejected.

JavaScript's `value || fallback` on a nullable string is `Options.OrElse`,
and truthiness is `Options.Truthy`.

Modules:

- **Options, Text, Http, Entities.** Nullable strings and truthiness;
  `trim`, digits and decimal rendering; replies, effects and the
  `HTTP error! status: N` text; the record shapes of
  `src/models/models/forum.ts`.
- **Session.** The two-store token store of `src/src/auth.ts`, plus `Run`,
  which applies a handler's token effects in order.
- **SessionGate.** The `fetchUserData` check that four pages repeat word
  for word.
- **QueryParams.** `URLSearchParams` as the pages use it: `get`, `set`,
  `delete`, `toString` and parsing, for values that need no
  percent-encoding.
- **One module per dialog, form or page.** The near-duplicate variants
  under `src/models/...` and `src/components/...` are kept apart:
  `ModelsForumPage`/`ForumPage`, `ModelsProfile`/`Profile` and
  `ModelsChangePasswordForm`/`ChangePasswordForm`. Where two variants do
  the same thing, each variant's module still states its own contract.
- **Schema.** The Yup rules the forms declare. Yup's `.email()` is a
  library regex, so each form takes it as a parameter `isEmail`.
  Formik runs a form's submit handler only when the schema passes. While
  the schema fails, `Submit` returns the previous error and no effects.

## Model

| member | source | states |
|---|---|---|
| Session.GetToken | src/src/auth.ts:1-3 | the localStorage token when it is truthy; a null or empty localStorage value falls through to whatever sessionStorage holds |
| Session.SetToken | src/src/auth.ts:5-7 | writes localStorage only; sessionStorage is unchanged |
| Session.ClearToken | src/src/auth.ts:9-12 | both stores are emptied |
| Session.GetAfterSet | src/src/auth.ts:1-7 | after storing a non-empty token, `getToken` returns it |
| Session.GetAfterSetEmpty | src/src/auth.ts:1-7 | storing the empty string signs nobody in: `getToken` falls back to sessionStorage |
| Session.GetAfterClear | src/src/auth.ts:1-12 | after `clearToken`, `getToken` returns null |
| Session.ClearIdempotent | src/src/auth.ts:9-12 | clearing twice equals clearing once |
| Text.BlankIffAllWhitespace | src/components/forum/EditForumModal.tsx:56-59 | `s.trim() === ""` holds exactly when every character of `s` is whitespace |
| Text.NatToStringRoundTrip | src/components/pages/ForumCommentsPage.tsx:33-34 | reading back the decimal rendering of a number gives the number |
| Http.StatusErrorInjective | src/src/components/forum/CreateForumModal.tsx:66-68 | different statuses give different `HTTP error! status: N` texts |
| CreateForumModal.Validate | src/src/components/forum/CreateForumModal.tsx:36-48 | no message exactly when the fields are valid; otherwise the message of the first failing rule, in the order blank, title over 100, description over 250; the lengths are those of the untrimmed strings |
| CreateForumModal.Respond | src/src/components/forum/CreateForumModal.tsx:50-90 | POST /forum. 409 gives the duplicate-title text, other failures the status text, and neither closes the dialog nor calls the parent. Success has no error and calls onClose once, then onForumCreated once |
| CreateForumModal.Submit | src/src/components/forum/CreateForumModal.tsx:33-90 | the previous error never matters; invalid input gives the first rule's message and sends nothing; a request goes out exactly when the input is valid |
| EditForumModal.Validate | src/components/forum/EditForumModal.tsx:55-67 | the same rule order; a whitespace-only field counts as blank; the length limits apply to the untrimmed strings |
| EditForumModal.Respond | src/components/forum/EditForumModal.tsx:69-102 | PATCH /forum/id. 409 gives the duplicate-title text without closing; other failures give the status text; success closes the dialog, then calls onForumUpdated, once each |
| EditForumModal.Submit | src/components/forum/EditForumModal.tsx:52-102 | invalid input sends no PATCH and reports the first failing rule; valid input sends exactly one request |
| CreateCommentModal.Validate | src/components/forum/CreateCommentModal.tsx:33-41 | the blank check comes before the 250-character check; no message exactly when the message is valid |
| CreateCommentModal.Respond | src/components/forum/CreateCommentModal.tsx:42-70 | POST to the forum's comments. A failure gives the status text and keeps the dialog open; success calls onClose, then onCommentCreated |
| CreateCommentModal.Submit | src/components/forum/CreateCommentModal.tsx:30-70 | the error is reset; invalid input sends nothing; a request goes out exactly when the message is valid |
| EditCommentModal.Validate | src/models/components/forum/EditCommentModal.tsx:54-61 | blank before length; no message exactly when the message is valid |
| EditCommentModal.Respond | src/models/components/forum/EditCommentModal.tsx:63-92 | PATCH the comment. A failure's error is exactly `HTTP error! status: N - ` followed by the body text, and the dialog stays open; success closes the dialog, then calls onCommentUpdated |
| EditCommentModal.Submit | src/models/components/forum/EditCommentModal.tsx:51-92 | a blank or over-long message sends no PATCH; a request goes out exactly when the message is valid |
| DeleteCommentConfirmation.Confirm | src/components/forum/DeleteCommentConfirmation.tsx:34-79 | a missing comment or forum id does nothing at all. 204 refetches, then calls onConfirm, then shows the success toast. 401, 403 and 404 show the server's message or the unknown-error text; other failures show the status text; any other ok status does nothing. Every failure is also shown in an error toast |
| DeleteCommentConfirmation.ConfirmOutcome | src/components/forum/DeleteCommentConfirmation.tsx:34-79 | the token store is never changed; the list is refetched exactly when the parent is told, and both happen exactly when the server answered 204; the error line stays empty exactly when no request went out or the server answered ok |
| ForumCommentsPage.ChangeLimit | src/components/pages/ForumCommentsPage.tsx:53-56 | the new page size, back to offset 0; the order and total are kept |
| ForumCommentsPage.ChangeOrder | src/components/pages/ForumCommentsPage.tsx:58-60 | only the order changes; limit and offset are kept |
| ForumCommentsPage.Previous | src/components/pages/ForumCommentsPage.tsx:139 | a disabled button changes nothing; otherwise the offset goes back exactly one page, or to 0 when less than a page lies before it |
| ForumCommentsPage.Next | src/components/pages/ForumCommentsPage.tsx:142 | a disabled button changes nothing; otherwise the offset goes forward one page and stays below the total |
| ForumCommentsPage.PreviousKeepsAlignment | src/components/pages/ForumCommentsPage.tsx:139 | "previous" keeps the offset a multiple of an offered page size |
| ForumCommentsPage.NextKeepsAlignment | src/components/pages/ForumCommentsPage.tsx:142 | "next" keeps the offset a multiple of an offered page size |
| ForumCommentsPage.StepKeepsAlignment | src/components/pages/ForumCommentsPage.tsx:53-64 | every event the page offers keeps the offset on a page boundary |
| ForumCommentsPage.RunKeepsAlignment | src/components/pages/ForumCommentsPage.tsx:53-64 | any sequence of offered events keeps the offset on a page boundary |
| ForumCommentsPage.ReachableOffsetsArePageBoundaries | src/components/pages/ForumCommentsPage.tsx:17-20 | from the initial state (limit 20, offset 0, "DESC"), every reachable state has an offered page size and an offset that is a multiple of it |
| ForumCommentsPage.DigitsAreUnreserved | src/components/pages/ForumCommentsPage.tsx:33-34 | decimal digits need no escaping in a query string |
| ForumCommentsPage.QueryReadsBack | src/components/pages/ForumCommentsPage.tsx:32-37 | the query parses back as limit, offset, orderBy in that order, and the server reads back the same page size and offset |
| ForumCommentsPage.FetchComments | src/components/pages/ForumCommentsPage.tsx:28-47 | without a forum id, nothing happens. Otherwise one GET with the paging query; success takes the new total and keeps the error; a failure's error is exactly `HTTP error! status: N - ` followed by the status text, and the paging is kept |
| ForumCommentsPage.ConfirmDelete | src/components/pages/ForumCommentsPage.tsx:80-109 | without a selected comment and a forum id, nothing happens. Otherwise one DELETE. Success refetches, closes the dialog, then shows the success toast, in that order and nothing else; a failure only sets the error line (status text or the thrown reason), with the DELETE as its sole effect |
| ForumCommentsPage.ConfirmDeleteOutcome | src/components/pages/ForumCommentsPage.tsx:80-109 | the token store is never changed; the list is refetched exactly when the dialog closes, and both happen exactly when a comment and forum are selected and the server accepted the DELETE |
| ForumCommentsPage.ConfirmClickedAsWired | src/components/pages/ForumCommentsPage.tsx:150 | the confirm button as wired sends no request and never calls the page's deletion |
| ForumCommentsPage.AsWiredNeverDeletes | src/components/pages/ForumCommentsPage.tsx:80-109 | with a comment selected, the page's deletion would send a DELETE, but the button as wired sends none |
| ForumCommentsPage.ConfirmClicked | src/components/pages/ForumCommentsPage.tsx:80-109 | the corrected button: with a comment selected it sends exactly one DELETE; otherwise nothing |
| ModelsForumPage.LoadUser | src/models/components/pages/ForumPage.tsx:37-67 | a request goes out exactly when a token is present; the user is loaded exactly when the server accepts it; otherwise the page goes to /login with no truthy token left |
| QueryParams.Update | src/models/components/pages/ForumPage.tsx:175-183 | each named parameter ends up as its single entry when its value is truthy, or absent otherwise; every other name keeps its entries |
| QueryParams.UpdateIdempotent | src/models/components/pages/ForumPage.tsx:175-183 | updating twice with the same values equals updating once |
| QueryParams.Set | src/models/components/pages/ForumPage.tsx:178-179 | afterwards the name has exactly the one given entry; every other name keeps its entries (only each name's own entries are pinned here; the position is in SetKeepsPlace) |
| QueryParams.SetKeepsPlace | src/models/components/pages/ForumPage.tsx:178-179 | the entries before the first one with that name stay in place, that entry takes the new value where it stood, and with no such entry the new one is appended at the end |
| QueryParams.Delete | src/models/components/pages/ForumPage.tsx:180-181 | afterwards the name has no entry; every other name keeps its entries |
| QueryParams.ParseSerialize | src/models/components/pages/ForumPage.tsx:72-75 | for names and values that need no escaping, parsing the `toString` rendering gives back the same entries in the same order |
| ModelsForumPage.UpdateQueryParams | src/models/components/pages/ForumPage.tsx:175-184 | the new query string has a parameter exactly when its value is truthy, holds that value alone, and leaves all other names untouched |
| ModelsForumPage.UpdateQueryParamsIdempotent | src/models/components/pages/ForumPage.tsx:175-184 | applying `updateQueryParams` twice with the same argument equals applying it once |
| ModelsForumPage.FilterChanged | src/models/components/pages/ForumPage.tsx:211-247 | a filter input sets its parameter to a non-empty value, or removes it when empty; other parameters are untouched |
| ModelsForumPage.ToggleUserForums | src/models/components/pages/ForumPage.tsx:187-190 | the flag flips; turning it on sets `usersFirst=true` and turning it off removes `usersFirst`; other parameters are untouched |
| ModelsForumPage.ToggleTwice | src/models/components/pages/ForumPage.tsx:187-190 | after a toggle, the query string agrees with the flag; two toggles restore the flag |
| ModelsForumPage.Owned | src/models/components/pages/ForumPage.tsx:192-194 | an order-preserving subsequence holding every forum the user created, and only those, with their multiplicities |
| ModelsForumPage.FilteredForums | src/models/components/pages/ForumPage.tsx:192-194 | always a subsequence of the list. With the flag on and the user loaded, exactly the user's own forums; otherwise the whole list |
| ModelsForumPage.SubsequenceRefl | src/models/components/pages/ForumPage.tsx:192-194 | a list is a subsequence of itself, which is the flag-off case |
| ModelsForumPage.FetchForums | src/models/components/pages/ForumPage.tsx:69-95 | one GET with the current query string; success replaces the list; a failure sets the status text and keeps the list |
| ModelsForumPage.FetchForumsSendsSearch | src/models/components/pages/ForumPage.tsx:72-75 | the single GET goes to `/forum?` followed by a query that, for parameters that need no percent-encoding, parses back to exactly the page's current parameters; the token store is untouched; the list changes only to an accepted reply's body |
| ModelsForumPage.ConfirmDelete | src/models/components/pages/ForumPage.tsx:115-154 | without a selected forum, nothing happens. 403 gives the no-permission text, other failures the status text, and each failure an error toast. Success refetches, closes the dialog and shows a notice |
| ModelsForumPage.NoDeletePermissionIsNoStatusError | src/models/components/pages/ForumPage.tsx:127-131 | the no-permission text differs from every `HTTP error! status: N` text |
| ModelsForumPage.ConfirmDeleteOutcome | src/models/components/pages/ForumPage.tsx:115-154 | the token store is never changed; the list is refetched exactly when the dialog closes, and both happen exactly when the server accepted the DELETE; a refusal shows the no-permission text exactly when its status is 403 |
| ForumPage.RankOfNames | src/components/pages/ForumPage.tsx:31-35 | the fixed order is query, after, before, usersFirst, orderBy |
| ForumPage.Candidates | src/components/pages/ForumPage.tsx:31-35 | one candidate per name, in the fixed order |
| ForumPage.KeepNonEmpty | src/components/pages/ForumPage.tsx:31-35 | keeps exactly the entries whose value is non-empty, and no others |
| ForumPage.KeepNonEmptyAscending | src/components/pages/ForumPage.tsx:31-35 | dropping entries keeps the names in order |
| ForumPage.OnlyKeepNonEmpty | src/components/pages/ForumPage.tsx:31-35 | dropping empty values commutes with picking the entries of one name |
| ForumPage.SearchParams | src/components/pages/ForumPage.tsx:28-35 | the appended parameters are in the fixed order, all known names, none with an empty value |
| ForumPage.OnlyDistinct | src/components/pages/ForumPage.tsx:31-35 | among distinctly named entries, each name picks out its own entry |
| ForumPage.KeepSingle | src/components/pages/ForumPage.tsx:31-35 | a single entry is kept exactly when its value is non-empty |
| ForumPage.CandidatesDistinct | src/components/pages/ForumPage.tsx:31-35 | no name is appended twice |
| ForumPage.ExpectedAt | src/components/pages/ForumPage.tsx:31-35 | each name's candidate gives the entries the filter state calls for |
| ForumPage.ContentsPresent | src/components/pages/ForumPage.tsx:31-35 | each known name carries exactly the entries the filter state calls for |
| ForumPage.ContentsAbsent | src/components/pages/ForumPage.tsx:31-35 | no unknown name appears |
| ForumPage.SearchParamsContents | src/components/pages/ForumPage.tsx:31-35 | for every name: a text filter is present exactly when non-empty, and `usersFirst=true` exactly when the flag is set (never "false") |
| ForumPage.SearchParamsReadBack | src/components/pages/ForumPage.tsx:31-35 | reading each parameter back gives the filter state's value, or nothing when that value is empty or the flag is off |
| ForumPage.InitialQuery | src/components/pages/ForumPage.tsx:13-35 | on first render the query is exactly `orderBy=date.DESC` |
| ForumPage.ToggleUsersFirst | src/components/pages/ForumPage.tsx:146 | the flag flips, the other filters stay, and `usersFirst` appears in the query exactly when it did not before |
| ForumPage.ToggleTwice | src/components/pages/ForumPage.tsx:146 | two presses restore the filter state and its query |
| ForumPage.FetchForums | src/components/pages/ForumPage.tsx:28-53 | one GET with the built query; success replaces the list; a failure sets the status text and keeps the list |
| ForumPage.ConfirmDelete | src/components/pages/ForumPage.tsx:73-102 | without a selected forum, nothing happens. A failure only sets the error line to the status text, with no toast; success refetches, closes the dialog, then shows the success toast, in that order and nothing else |
| ForumPage.ConfirmDeleteOutcome | src/components/pages/ForumPage.tsx:73-102 | the token store is never changed; the list is refetched exactly when the dialog closes, and both happen exactly when the server accepted the DELETE; no error toast is ever shown |
| SessionGate.LoadUser | src/components/pages/Profile.tsx:19-50 | no token: /login without a request. Accepted: the user is stored. Refused: the token is dropped and the page goes to /login. A failed request does the same and sets the fetch-failure text |
| SessionGate.GateHolds | src/models/components/pages/Profile.tsx:42-73 | afterwards, either the user is loaded with the store untouched and the token truthy, or the page is on /login with no truthy localStorage token and sessionStorage untouched |
| Schema.StrongPassword | src/components/auth/LoginForm.tsx:26-30 | the password rule: at least eight characters, a digit and a lowercase letter |
| Schema.StrongPasswordGrows | src/components/auth/LoginForm.tsx:26-30 | adding characters before or after a password that passes the rule never makes it fail |
| Schema.NoDigitNeverStrong | src/components/auth/LoginForm.tsx:28 | a password without a digit fails, whatever its length |
| Schema.StrongIsRequired | src/models/components/auth/ChangePasswordForm.tsx:38-46 | a password that passes the length, digit and lowercase rules is never empty |
| Schema.StrongPasswordExamples | src/components/auth/ChangePasswordForm.tsx:15-19 | eight lowercase letters fail, as do eight characters with no lowercase and seven characters; a lowercase word with a digit passes |
| ChangePasswordForm.Valid | src/components/auth/ChangePasswordForm.tsx:14-29 | both passwords follow the rule, the new one differs from the old, the confirmation repeats the new, and every field is filled in |
| ChangePasswordForm.DefaultText | src/components/auth/ChangePasswordForm.tsx:62-72 | 400, 401 and 409 each have a text of their own; every other status gets the unknown-error text |
| ChangePasswordForm.ValidIff | src/components/auth/ChangePasswordForm.tsx:14-31 | the schema holds exactly when both passwords are strong, the new differs from the old, and the confirmation repeats the new |
| ChangePasswordForm.Respond | src/components/auth/ChangePasswordForm.tsx:39-85 | no token: /login without a request. Accepted: a notice, then /profile. The token is dropped, with /login and no error, exactly when the failure text is the bad-token text; any other text goes on the error line |
| ChangePasswordForm.Submit | src/components/auth/ChangePasswordForm.tsx:32-85 | nothing happens while the schema fails; a request goes out only with a valid schema and a token |
| ChangePasswordForm.UnauthorizedWithMessage | src/components/auth/ChangePasswordForm.tsx:66-81 | a 401 carrying another message only sets the error, and the user stays signed in |
| ChangePasswordForm.StoreAfterSubmit | src/components/auth/ChangePasswordForm.tsx:74-81 | sessionStorage is never touched. The store changes exactly when the failure text is the bad-token text, and then only by dropping the localStorage token |
| ModelsChangePasswordForm.Submit | src/models/components/auth/ChangePasswordForm.tsx:37-111 | nothing while the schema fails; no token gives /login; success gives a notice and /profile; the server message beats the status default (409: same-password text); only the bad-token text signs the user out, ending on /login, and any other text is shown with the store unchanged |
| LoginForm.Mount | src/components/auth/LoginForm.tsx:17-22 | goes to /forum exactly when a truthy token is stored |
| LoginForm.Valid | src/components/auth/LoginForm.tsx:24-31 | a filled-in e-mail address and a password that follows the rule |
| LoginForm.ValidIff | src/components/auth/LoginForm.tsx:24-31 | the password's required rule adds nothing: the schema holds exactly for an e-mail address and a password that follows the rule |
| LoginForm.TokenText | src/components/auth/LoginForm.tsx:50-52 | what `setItem` stores for the `accessToken` field: a missing token becomes the truthy string "undefined", so the stored value is empty only when the server sent an empty token |
| LoginForm.DefaultText | src/components/auth/LoginForm.tsx:55-63 | 400 and 401 each have a text of their own; every other status gets the unknown-error text |
| LoginForm.Respond | src/components/auth/LoginForm.tsx:39-72 | POST /user/login. Accepted: the token is stored, then /forum. Refused: the server message or the 400/401/other default. A failure has no other effect |
| LoginForm.Submit | src/components/auth/LoginForm.tsx:24-72 | nothing while the schema (email, strong password) fails; a request goes out exactly when it passes |
| LoginForm.SignInStoresToken | src/components/auth/LoginForm.tsx:50-71 | a failure leaves the store as it was; success stores the returned token in localStorage, after which the mount redirect goes to /forum |
| RegistrationForm.Valid | src/models/components/auth/RegistrationForm.tsx:17-29 | a filled-in e-mail address, a password that follows the rule, its confirmation, and both names |
| RegistrationForm.ValidIff | src/models/components/auth/RegistrationForm.tsx:17-29 | the password's and the confirmation's required rules add nothing once the password follows the rule and the confirmation repeats it |
| RegistrationForm.DefaultText | src/models/components/auth/RegistrationForm.tsx:67-75 | 400 and 409 each have a text of their own; every other status gets the unknown-error text |
| RegistrationForm.Respond | src/models/components/auth/RegistrationForm.tsx:44-98 | POST /user. Created: the token is stored, a notice shown, the form reset, then /profile. Refused: the server message or the 400/409/other default. Every failure also goes in an error toast |
| RegistrationForm.Submit | src/models/components/auth/RegistrationForm.tsx:17-98 | nothing while the schema (email, strong password, matching confirmation, both names) fails; a request goes out exactly when it passes |
| RegistrationForm.Cancel | src/models/components/auth/RegistrationForm.tsx:100-102 | only a navigation to /login: no request and no token change |
| RegistrationForm.SignUpStoresToken | src/models/components/auth/RegistrationForm.tsx:55-96 | a refused sign-up leaves the store as it was; an accepted one stores the returned token in localStorage |
| UpdateUserForm.LoadUser | src/components/auth/UpdateUserForm.tsx:31-62 | a request goes out exactly with a token; the user is loaded exactly when it is accepted; otherwise the page goes to /login with no truthy token left |
| UpdateUserForm.Valid | src/components/auth/UpdateUserForm.tsx:20-23 | both names are filled in; whitespace counts, since the schema does not trim |
| UpdateUserForm.DefaultText | src/components/auth/UpdateUserForm.tsx:93-101 | 400 and 401 each have a text of their own; every other status gets the unknown-error text |
| UpdateUserForm.Respond | src/components/auth/UpdateUserForm.tsx:64-130 | no token: /login, and submitting is not reset. Accepted: the user is stored, a notice shown, then /profile. The bad-token text signs the user out; other texts are shown and toasted. Submitting is reset exactly when a request went out |
| UpdateUserForm.Submit | src/components/auth/UpdateUserForm.tsx:20-130 | nothing while either name is empty; a request goes out exactly with both names and a token |
| UpdateUserForm.Cancel | src/components/auth/UpdateUserForm.tsx:132-134 | only a navigation to /profile |
| UpdateUserForm.UnauthorizedSignsOut | src/components/auth/UpdateUserForm.tsx:93-117 | a 401 drops the token exactly when the body has no message of its own or carries the bad-token text |
| UseUpdateUserForm.LogoutClearsBoth | src/components/auth/UpdateUserForm.ts:44-48 | after signing out both stores are empty and `getToken` returns null |
| UseUpdateUserForm.Mount | src/components/auth/UpdateUserForm.ts:12-42 | no token in either store: /login without a request. Accepted: the user is stored. A 401, any other refusal and a failed request all sign the user out |
| UseUpdateUserForm.MountGate | src/components/auth/UpdateUserForm.ts:12-48 | after mounting, either the user is loaded with the store untouched, or the page is on /login with no token anywhere |
| UseUpdateUserForm.Submit | src/components/auth/UpdateUserForm.ts:50-101 | no token: /login. ok: the user is stored, a notice shown, then /profile. 400: the invalid-input toast only. 401: sign-out. Any other status, or a failed request: the connection toast |
| UseUpdateUserForm.SubmitSignsOutOnlyOn401 | src/components/auth/UpdateUserForm.ts:78-99 | a submit empties the store exactly on a 401 and otherwise leaves both stores as they were |
| Profile.LoadUser | src/components/pages/Profile.tsx:19-50 | the session gate; the error line is set, to the fetch-failure text, exactly when the request failed |
| Profile.Clicked | src/components/pages/Profile.tsx:52-67 | no button sends a request; each ends on its own route (/login, /update, /change-password, /forum); only sign-out touches the token store |
| Profile.SignOutDropsLocalToken | src/components/pages/Profile.tsx:52-55 | sign-out drops the localStorage token and keeps sessionStorage; the other buttons leave the store alone |
| ModelsProfile.LoadUser | src/models/components/pages/Profile.tsx:42-73 | no token: /login without a request; the user is loaded exactly when accepted; otherwise /login with no truthy token; the fetch-failure text exactly when the request failed |
| ModelsProfile.Clicked | src/models/components/pages/Profile.tsx:75-90 | no request; each button ends on its route; sign-out drops the localStorage token and nothing else; the others leave the store alone |

## Left out

- Rendering. JSX, Chakra styling and the view components hold no decisions
  and are not modelled. This includes the inline cancel button of the
  password form, which only navigates to /profile.
- The network. `fetch`, headers and the bearer token sent with requests are
  left out. A failure of `response.json()` on a body that is not JSON is
  not modelled either: the reply's `message`, `accessToken` and list body
  are given as inputs.
- Async timing. `useEffect` re-runs, overlapping requests and the ordering
  of React state updates are not modelled. Each handler is one synchronous
  step.
- `handleForumUpdated`'s 403 branch
  (src/models/components/pages/ForumPage.tsx:156-173). It is unreachable,
  because `fetchForums` catches its own errors.
- The mount-time fetches that pre-fill the edit dialogs. They only copy
  server values into fields.
- Toast and alert titles, descriptions and durations. A toast is a
  `SuccessNotice` or an `ErrorNotice(text)`, and an `alert` counts as a
  notice.
- The `err instanceof Error` test. Everything the handlers throw is an
  `Error`, so a thrown value that is not one is not modelled. A rejected
  `fetch` is `Thrown(reason)` with its message.
- Date conversion of `createdAt` (`new Date(...)`), and locale formatting.
- Yup's `.email()` regex, and which schema message Yup reports first.
  Validity is a conjunction of rules, and `isEmail` is a parameter.
- src/components/App.tsx, which is route wiring only.
- String semantics. Lengths are counted in characters, not UTF-16 code
  units. `trim` uses the ECMAScript whitespace set, with no further Unicode
  fidelity.
- QueryParams.Serialize: percent-encoding is not modelled. The round trip
  `Parse(Serialize(ps)) == ps` is proved only for names and values that
  need no escaping, such as the comment query's digits and "ASC"/"DESC".
- ModelsForumPage.FetchForumsSendsSearch requires `Plain(search)`: the read-back
  of the sent query is proved only when no name or value needs
  percent-encoding. A typed search holding a space, an accented letter or
  `&` is not covered, because escaping is not modelled.
- ForumCommentsPage.QueryReadsBack requires the order to be "ASC" or
  "DESC", the only values the order selector offers.
- ForumCommentsPage.FetchComments takes the body's `total` as an input
  and does not model the comment list itself.
- LoginForm.TokenText: a JSON `null` access token is not told apart from a
  missing one. The source would store "null" rather than "undefined"; both
  are truthy strings that are not a token.
- `console.error` logging in src/components/auth/UpdateUserForm.ts.

## Findings

| source | as written | input that shows it | evidently intended | confidence | as-written member | corrected member |
|---|---|---|---|---|---|---|
| src/components/pages/ForumCommentsPage.tsx:150 | The page imports the dialog of src/components/forum/DeleteCommentConfirmation.tsx (line 8). That dialog's `handleConfirm` returns at its line 38 unless it receives `commentId` and `forumId`, but the page passes only `isOpen`, `onClose` and `onConfirm`. | Select any comment for deletion and press the confirm button: no DELETE is sent, and the page's `handleConfirmDelete` (lines 80-109) never runs. | The confirm button calls the page's `handleConfirmDelete`, which sends the DELETE for the selected comment. This is how the dialog under src/src/components/forum wires it. | not executed; medium | ForumCommentsPage.ConfirmClickedAsWired (with ForumCommentsPage.AsWiredNeverDeletes) | ForumCommentsPage.ConfirmClicked |
