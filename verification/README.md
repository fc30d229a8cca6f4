# URL shortener view state, in Dafny

This project models the state logic of the `UrlShortener` React component,
the single screen of a URL-shortening client. The screen keeps five pieces of
view state: the input text, the list of shortened links, a `loading` flag for
the submit button, and a status message with its kind. Four handlers change
that state: loading the list, creating a short link, copying a short URL and
deleting a link. The delete handler removes records optimistically; create,
copy and delete post a timed status message; load only replaces the list.

With the network, the timers and the confirmation dialog made explicit, the
component is a small deterministic state machine:

- `outcomes.dfy` (module `Outcomes`) holds `Option` (a field that may be
  `undefined`) and `Outcome` (what a remote call delivered: `Ok(value)` or
  `Failed`).
- `links.dfy` (module `Links`) holds the `Link` record. Its `shortCode` is
  optional, because the server's table (`app/models.py`) has no short-code
  column. The module also holds the optimistic filter `Without` and the
  lemmas that characterise it: no kept record carries the code, every other
  record is kept as often as before, order is preserved, and the result is the
  only subsequence with these properties.
- `url_shortener.dfy` (module `UrlShortener`) holds the immutable `ViewState`
  and the handlers as pure functions. `HandleSubmit`, `CopyToClipboard` and
  `DeleteUrl` return a `Step`: the new state plus the requests and clears they
  issued, in order. `FetchUrls`, `EditInput` and `Expire` return only the new
  state. The effects are server requests (`FetchAll`, `PostShorten`,
  `DeleteByCode`) and scheduled message clears (`ScheduleClear(ms)`). A load's
  own request appears as a `FetchAll` effect only when a create or delete asks
  for it; the initial load is a bare `Loaded` event. A remote call's result is a parameter of the handler.
  The confirmation dialog's answer is a boolean parameter. A scheduled clear
  firing is its own `Expire` event. `Run` folds a sequence of events over the
  state, and `RunStaysAtRest` proves an invariant that holds between events:
  the submit button is enabled, and every shown message is paired with the
  kind its handler gives it.

A successful create calls `fetchUrls()` without awaiting it. The model records
that call as a `FetchAll` effect, and the reload arrives later as a separate
`Loaded` event. A successful delete awaits its reload, so `DeleteUrl` takes
the reload's outcome and applies it to the optimistically filtered state.
Because the load handler swallows its own errors, a failed reload keeps the
filtered list and the success message.

A clear empties whatever message is showing when it fires, and the model keeps
that behaviour: the race between overlapping clears is kept because `Expire`
clears any message. The model has no clock and does not link an `Expire` event
to the `ScheduleClear` that caused it, so it cannot tell which clear fires
(`StaleClearWipesNewerMessage`).

## Model

| member | source | states |
|---|---|---|
| Links.Without | frontend/src/components/UrlShortener.jsx:68-70 | after the optimistic filter, a record is in the list iff it was there before and does not carry the deleted code (records without a code are kept), and the list never grows |
| Links.WithoutCounts | frontend/src/components/UrlShortener.jsx:68-70 | every record without the deleted code keeps its number of occurrences; records with the code occur zero times |
| Links.WithoutKeepsOrder | frontend/src/components/UrlShortener.jsx:68-70 | the kept records appear in their original relative order (the result is a subsequence of the old list) |
| Links.WithoutIsUnique | frontend/src/components/UrlShortener.jsx:68-70 | any order-preserving sublist that drops exactly the records with the code, and keeps every other record as often as before, is the filter's result |
| Links.WithoutAppend | frontend/src/components/UrlShortener.jsx:68-70 | the filter decides record by record: filtering a concatenation is concatenating the filtered parts |
| Links.WithoutShrinks | frontend/src/components/UrlShortener.jsx:68-70 | the list gets strictly shorter exactly when some record carried the deleted code |
| Links.WithoutIdempotent | frontend/src/components/UrlShortener.jsx:68-70 | applying the filter again with the same code changes nothing |
| Links.WithoutKeepsUniqueIds | frontend/src/components/UrlShortener.jsx:68-70 | if ids were unique before the filter, they are unique after it |
| UrlShortener.FetchUrls | frontend/src/components/UrlShortener.jsx:14-22 | a successful load replaces the list wholesale with the server's sequence in the server's order; a failed load leaves the whole state, list and message included, untouched; input, loading flag and message never change |
| UrlShortener.EditInput | frontend/src/components/UrlShortener.jsx:99 | typing sets the input text and leaves list, loading flag and message alone |
| UrlShortener.Submitting | frontend/src/components/UrlShortener.jsx:31-32 | while a create is in flight the button is disabled and the message is hidden; input, list and kind are kept |
| UrlShortener.HandleSubmit | frontend/src/components/UrlShortener.jsx:28-47 | an empty input changes nothing and issues nothing; otherwise the create request goes out first with the input text, the list is untouched, loading ends false, and a 3000 ms clear is scheduled last; success clears the input, shows "URL shortened successfully!" as success and requests a reload; failure keeps the input and shows "Error shortening URL!" as error; a displayable message stays displayable |
| UrlShortener.CopyToClipboard | frontend/src/components/UrlShortener.jsx:49-54 | copying shows "Copied to clipboard!" as success, schedules a 2000 ms clear and leaves list, input and loading flag unchanged |
| UrlShortener.RemoveOptimistically | frontend/src/components/UrlShortener.jsx:68-70 | the optimistic state holds no record with the deleted code, keeps every other record exactly as often as before, in its original relative order, and leaves input, loading flag and message unchanged |
| UrlShortener.DeleteUrl | frontend/src/components/UrlShortener.jsx:56-84 | a missing or empty code shows "Cannot delete: Short code is missing!" as error, keeps the list and only schedules a 3000 ms clear; a declined confirmation changes nothing and issues nothing; a failed delete keeps the list, shows "Failed to delete URL!" as error and schedules a 3000 ms clear; a successful delete shows "URL deleted successfully!" as success, issues the delete, a reload and a 2000 ms clear, and leaves the reloaded list or, if the reload failed, the filtered list; input and loading flag never change |
| UrlShortener.Expire | frontend/src/components/UrlShortener.jsx:45 | a scheduled clear empties the message text and changes nothing else, the kind included |
| UrlShortener.Apply | frontend/src/components/UrlShortener.jsx:14-84 | every event keeps a state at rest (button enabled, message paired with its handler's kind) |
| UrlShortener.RunStaysAtRest | frontend/src/components/UrlShortener.jsx:28-84 | from a state at rest, any sequence of events leaves the state at rest: loading is always reset and no message is shown with the wrong kind |
| UrlShortener.ApplyKeepsUniqueIds | frontend/src/components/UrlShortener.jsx:14-84 | every event keeps the ids of the shown list unique when the server sends no duplicate ids: loads and reloads replace the list with the server's, the delete filter only removes records |
| UrlShortener.RunKeepsUniqueIds | frontend/src/components/UrlShortener.jsx:123-124 | over any sequence of events the shown list never holds two records with the same id, the row key, provided every list the server sends has unique ids |
| UrlShortener.ReachableStatesAtRest | frontend/src/components/UrlShortener.jsx:8-12 | starting from the initial state, every reachable state is at rest |
| UrlShortener.SubmitRequestsCreateIffInput | frontend/src/components/UrlShortener.jsx:30-34 | a submit issues a create request if and only if the input is non-empty |
| UrlShortener.DeleteRequestNeedsCodeAndConfirmation | frontend/src/components/UrlShortener.jsx:57-66 | a delete request is issued only for a present, non-empty code, only after confirmation, and always for that code |
| UrlShortener.DeletedCodeStaysAbsent | frontend/src/components/UrlShortener.jsx:66-75 | after a successful delete no record with the deleted code is shown, whether the reload fails or returns a list without that code |
| UrlShortener.FailedReloadKeepsOptimisticList | frontend/src/components/UrlShortener.jsx:68-75 | when the reload after a successful delete fails, the filtered list, an order-preserving sublist of the old one, and the success message remain |
| UrlShortener.CodelessRowsCannotBeDeleted | frontend/src/components/UrlShortener.jsx:57-62 | when no record has a short code, as with records stored by the server's model, every row's Delete reports the missing code, keeps the list and sends no delete request |
| UrlShortener.StaleClearWipesNewerMessage | frontend/src/components/UrlShortener.jsx:45-53 | after a failed create schedules its clear and a copy shows its own message, the create's clear firing empties the copy's message, as does any clear firing after the copy |
| UrlShortener.DeleteOnlyRecordScenario | frontend/src/components/UrlShortener.jsx:66-75 | deleting the only record, code "abc", with confirmation and server success, followed by a reload that fails or returns an empty list, leaves an empty list and the success message, and issues the delete, a reload and a 2000 ms clear in that order |
| UrlShortener.EmptySubmitScenario | frontend/src/components/UrlShortener.jsx:30 | submitting with an empty input from the initial state returns the same state and no effects |
| UrlShortener.FailedCreateScenario | frontend/src/components/UrlShortener.jsx:39-44 | a failed create of "http://x.com" keeps the input, shows the error message and leaves loading false |

## Left out

- Rendering: the JSX markup, CSS classes and the empty-state text (`UrlShortener.jsx` lines 86-174) and `frontend/src/App.jsx` are presentation only. Only the input's change handler (line 99) is modelled, as `EditInput`.
- The HTTP transport (axios, the API base address, the wire paths) and console logging are I/O. Each remote call is reduced to the effect that names it and an `Outcome` parameter. The kinds of transport error are not distinguished, because the component never distinguishes them.
- The clipboard write at line 50 is I/O: `CopyToClipboard` models only the message update, so the copied text is not a parameter.
- The confirmation dialog is a boolean parameter of `DeleteUrl`.
- Real time and timer scheduling: a clear is the `ScheduleClear(ms)` effect plus a later `Expire` event. Delays between events and interleavings of asynchronous calls are not modelled. In particular, a second submit while a create is in flight is not modelled; the disabled button and the `loading` flag exist to prevent it.
- Mounting, unmounting and `useEffect` (lines 24-26): the initial load is an ordinary `Loaded` event applied to `Initial`.
- The server (`app/main.py`, `app/models.py`, `app/schemas.py`) holds only framework setup and declarations. Its only influence here is that its records carry no short code, which `CodelessRowsCannotBeDeleted` covers. Whether a created record appears exactly once after the reload depends on the server and is not modelled.
- The HTML `required` and `type="url"` checks on the input are browser behaviour; the model keeps only the handler's own empty-input guard.
