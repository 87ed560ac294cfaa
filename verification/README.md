# Article client controller, modelled in Dafny

This project models the action controller of the `App` React component of a
small single-page client for an articles REST API. The component keeps four
pieces of state (`message`, `articles`, `currentArticleId`, `spinnerOn`). It
also writes the session token to local storage under the key "token" and
tells the router where to go. Its six handlers are `logout`, `login`,
`getArticles`, `postArticle`, `updateArticle` and `deleteArticle`.

The five request-making handlers all follow one pattern. First they flush the
message and turn the spinner on. Then they send a request. When it settles,
the `.then` callback acts on one expected status, or the `.catch` callback
shows the server's error message. In the four authenticated handlers, the
`.catch` callback also logs out on a 401.

The model treats each handler call as one atomic transition. The settled
outcome of the request is an input: `Resolved(status, body)` or
`Rejected(status, errorBody)`.

- `JsArray` (`js_array.dfy`): `Array.prototype.findIndex` and
  `Array.prototype.splice` as section 22.1.3.9 and section 22.1.3.25 of
  ECMAScript 2015 define them. This includes negative and out-of-range starts
  and clamped delete counts. It also holds the facts about `splice` that the
  handlers rely on.
- `SpliceSteps` (`splice_steps.dfy`): the step-by-step algorithm of section
  22.1.3.25. The array object is a map of indexed properties; properties are
  moved one by one, surplus ones are deleted and the length is set last.
  `SpliceSteps.Splice` is proved to compute the closed form `JsArray.Splice`.
- `AppState` (`app_state.dfy`): the state record, the article record, the
  two routes, the response bodies, and the `Action` datatype. Each action
  value carries the settled outcome of its request.
- `AppController` (`app_controller.dfy`): the handlers as pure functions
  (`Begin`, `Logout`, `Reject`, `Login`, `GetArticles`, `PostArticle`,
  `UpdateArticle`, `DeleteArticle`), plus `Step` (one call) and `Run` (calls
  in sequence). `updateArticle` and `deleteArticle` are built on
  `JsArray.FindIndex` and `JsArray.Splice`, exactly as the source calls them.
- `AppProperties` (`app_properties.dfy`): an independent reference definition
  for each field of the state. These definitions use no `splice` and no
  `findIndex`; for example, `ReplaceFirst` is a recursive "replace the first
  article with this id". `StepByField` proves that every handler call sets
  every field as the reference definitions say. The other lemmas there state
  the promises of each handler and of runs of calls.

The model follows the code as written, including these behaviours, which are
easy to misread:

- After a 401 on an authenticated request, the banner shows the server's
  message, not "Goodbye!". `setMessage` runs after `logout()` and overwrites
  its message (`UnauthorizedLogsOut`).
- A resolved response with an unexpected status leaves the spinner on and the
  message empty, because the `.then` callback does nothing. Examples are a
  204 from `getArticles` or a 200 from `postArticle` (`IgnoredResponseShowsStart`,
  `SpinnerOnIff`).
- `updateArticle` finds the slot by the current selection, not by the id the
  request was sent for. With no matching article, `findIndex` gives -1 and
  `splice(-1, 1, x)` overwrites the last article; on an empty list it inserts
  `x` (`UpdateWithoutMatchReplacesLast`, `UpdateOnEmptyInserts`).
- Because of that, an accepted update with no matching selection can give two
  articles the same id: when the server's copy carries the id of an article
  other than the last, the last one is overwritten and the id appears twice
  (`UpdateWithoutMatchCanDuplicateId`).
- `deleteArticle` removes by index only and never clears the selection. When
  ids are distinct, deleting the selected article leaves `currentArticleId`
  naming an id that no article has (`DeleteKeepsDanglingSelection`). With a
  duplicate id, the selection can still match the other copy after the delete.

## Model

| member | source | states |
|---|---|---|
| JsArray.FindIndex | frontend/components/App.js:134 | `findIndex` returns an index in -1..len-1. When not -1, that element satisfies the predicate and no earlier one does. It is -1 exactly when no element satisfies it. |
| JsArray.FindIndexFrom | frontend/components/App.js:134 | The scan from a given position returns the first satisfying position at or after it, or -1 when none from there on satisfies. |
| JsArray.ActualStart | frontend/components/App.js:136 | The start of a `splice`, negative or out of range, always lands inside 0..len. |
| JsArray.ActualDeleteCount | frontend/components/App.js:136 | The delete count of a `splice` never reaches past the end of the array. |
| JsArray.Splice | frontend/components/App.js:136 | `splice` keeps the elements before the actual start, puts the items there, and then continues with the elements after the deleted ones. It returns exactly the deleted elements, and the new length is len - deleted + items. |
| JsArray.SpliceUndo | frontend/components/App.js:136 | Splicing the returned elements back in where the items went restores the original array, and that second call returns the items. |
| JsArray.SpliceReplaceInside | frontend/components/App.js:136 | `splice(i, 1, x)` with i inside the array overwrites position i and returns the old element. |
| JsArray.SpliceReplaceLast | frontend/components/App.js:136 | `splice(-1, 1, x)` on a non-empty array overwrites the last element. |
| JsArray.SpliceEmptyInserts | frontend/components/App.js:136 | `splice(i, 1, x)` on an empty array inserts x and removes nothing, for every i. |
| JsArray.SpliceRemoveInside | frontend/components/App.js:160 | `splice(i, 1)` with i inside the array removes exactly position i. |
| JsArray.SpliceRemoveNegative | frontend/components/App.js:160 | `splice(i, 1)` with negative i removes the element at len + i, or the first element when i < -len. |
| JsArray.SpliceRemoveBeyondEnd | frontend/components/App.js:160 | `splice(i, 1)` with i at or past the end changes nothing and returns nothing. |
| SpliceSteps.Splice | frontend/components/App.js:160 | The property-by-property algorithm (collect deleted elements, shift the tail down or up, delete surplus properties, store the items, set the length) yields the same array and removed elements as the closed form. |
| AppController.SelectedIndex | frontend/components/App.js:134 | The lookup of the selected article gives the first position whose id equals the selection, or -1 exactly when none does. An undefined selection matches nothing. |
| AppProperties.SelectedIndexFinds | frontend/components/App.js:134 | The lookup finds a position exactly when some article carries the selected id. |
| AppProperties.ReplaceFirstAt | frontend/components/App.js:134-136 | Replacing the first article of the selected id overwrites exactly the first matching position. |
| AppProperties.UpdateSplice | frontend/components/App.js:134-137 | The copy-and-splice at the found index equals the reference: replace the first match, else the last article, else insert into the empty list. |
| AppProperties.DeleteSplice | frontend/components/App.js:159-161 | The copy-and-splice of `deleteArticle` equals removal at the index. A negative index counts from the end, and an index past the end removes nothing. |
| AppProperties.UpdateByField | frontend/components/App.js:124-148 | Every call of `updateArticle`, whatever its outcome, sets each field as the reference definitions say. |
| AppProperties.DeleteByField | frontend/components/App.js:150-171 | Every call of `deleteArticle`, whatever its outcome, sets each field as the reference definitions say. |
| AppProperties.StepByField | frontend/components/App.js:34-171 | Every handler call sets message, articles, selection, spinner, token and route as the per-field reference definitions say. None of those definitions uses `splice` or `findIndex`. |
| AppProperties.LogoutIdempotent | frontend/components/App.js:34-43 | `logout` empties the token store, sets "Goodbye!", routes to "/" and leaves the list, selection and spinner alone. Applying it twice equals applying it once. |
| AppProperties.StartForgetsMessageAndSpinner | frontend/components/App.js:52-53 | Each request-making handler overwrites message and spinner before the outcome is applied, so two states that differ only there end the same. |
| AppProperties.IgnoredResponseShowsStart | frontend/components/App.js:80-86 | A response with a status the `.then` callback ignores leaves the started state: empty message, spinner on, nothing else changed. |
| AppProperties.LoginAccepted | frontend/components/App.js:54-62 | `login` with 200 stores the returned token, shows the server's message, stops the spinner and routes to "articles"; nothing else changes. |
| AppProperties.LoginRejected | frontend/components/App.js:63-66 | A rejected `login` shows the error message and stops the spinner. Even on a 401, token and route stay as they were. |
| AppProperties.GetArticlesReplaces | frontend/components/App.js:80-86 | `getArticles` with 200 installs exactly the server's list, the same whatever list was held before. |
| AppProperties.PostArticleCallback | frontend/components/App.js:104-107 | `postArticle` calls its callback once when the server answers 201, and not at all otherwise. |
| AppProperties.PostArticleAppends | frontend/components/App.js:104-113 | `postArticle` with 201 grows the list by one. Every earlier article keeps its position, the created article comes last, the server's message is shown and the spinner stops. |
| AppProperties.UpdateReplacesSelected | frontend/components/App.js:131-138 | `updateArticle` with 200 and a matching selection replaces the first matching slot and only it, and clears the selection. |
| AppProperties.UpdateWithoutMatchReplacesLast | frontend/components/App.js:134-136 | `updateArticle` with 200 when no article matches the selection replaces the last article, and clears the selection. |
| AppProperties.UpdateOnEmptyInserts | frontend/components/App.js:134-137 | `updateArticle` with 200 on an empty list leaves a list holding just the server's article. |
| AppProperties.UpdateKeepsLength | frontend/components/App.js:124-138 | `updateArticle` with 200 keeps a non-empty list's length and clears the selection. The result does not depend on the id the request was sent for. |
| AppProperties.DeleteRemovesIndex | frontend/components/App.js:150-162 | `deleteArticle` with 200 and an index inside the list removes that position and nothing else. The result does not depend on the id sent to the server. |
| AppProperties.DeleteBeyondEndKeepsList | frontend/components/App.js:159-161 | `deleteArticle` with 200 and an index at or past the end leaves the list unchanged. |
| AppProperties.DeleteNegativeIndex | frontend/components/App.js:159-161 | `deleteArticle` with 200 and a negative index removes the article that many places from the end, or the first article when the index reaches past the start. |
| AppProperties.UnauthorizedLogsOut | frontend/components/App.js:88-93 | A 401 on any authenticated request clears the token and routes to "/". The final message is the server's, not "Goodbye!". The spinner stops, and the list and selection are kept. |
| AppProperties.FailureStopsSpinner | frontend/components/App.js:141-146 | Every rejected request stops the spinner and shows the error message. Any failure other than a 401 on an authenticated request keeps the token and the route. |
| AppProperties.SpinnerOnIff | frontend/components/App.js:78-94 | After a handler call the spinner is on exactly when the `.then` callback ignored the response, or when the call was `logout` and the spinner was already on. |
| AppProperties.RunKeepsSpinnerOff | frontend/components/App.js:21-171 | Starting with the spinner off, it is off after any sequence of calls in which no response was ignored. |
| AppProperties.TokenProvenance | frontend/components/App.js:40-57 | A token held after any sequence of calls was held before it, or was stored by one of its accepted logins. |
| AppProperties.RunEndingInLogout | frontend/components/App.js:34-43 | Whatever calls came before, ending with `logout` leaves no token, the login route and "Goodbye!". |
| AppProperties.RemoveAtKeepsIdsDistinct | frontend/components/App.js:159-161 | Removing one position from a list whose ids are distinct keeps them distinct. |
| AppProperties.DeleteKeepsIdsDistinct | frontend/components/App.js:150-171 | `deleteArticle` never makes two articles share an id, whatever its outcome. |
| AppProperties.PostKeepsIdsDistinct | frontend/components/App.js:104-113 | Appending a created article whose id is new keeps ids distinct. |
| AppProperties.SameIdUpdateKeepsIdsDistinct | frontend/components/App.js:134-137 | Overwriting one article with an article of the same id keeps ids distinct. |
| AppProperties.UpdateKeepsIdsDistinct | frontend/components/App.js:131-138 | Replacing the selected article with the server's copy, which carries the selected id, keeps ids distinct. |
| AppProperties.UpdateWithoutMatchCanDuplicateId | frontend/components/App.js:132-136 | With distinct ids and no article matching the selection, an accepted update whose server copy carries the id of any article but the last leaves two articles with that id. |
| AppProperties.DeleteKeepsDanglingSelection | frontend/components/App.js:150-162 | For every list with distinct ids, deleting the selected article by its index keeps `currentArticleId` unchanged, and it then names an id that no remaining article has. |
| AppProperties.RunKeepsNoSelection | frontend/components/App.js:124-171 | No handler ever sets a selection: a state without one keeps none through any sequence of calls. |
| AppProperties.RunFromInitialSelectsNothing | frontend/components/App.js:18-21 | From the state the component mounts with, the selection stays undefined through any sequence of handler calls. |

## Left out

- The request layer in `frontend/axios/index.js` is not modelled: the base URL, the paths, and the `Authorization` header read from local storage. Its only effect on the controller is the outcome, which is an input here.
- Local storage is modelled only through its "token" entry. `logout` calls `localStorage.clear()`, which would also drop any other key.
- Rendering, routing components, spinner opacity and child components (lines 173-219) are the view layer. The route is a two-valued enum.
- `setCurrentArticleId` is handed to the child components (lines 202 and 210), which select articles. Selecting is not a handler of the controller, so within the model no run ever sets a selection (`RunKeepsNoSelection`); only `updateArticle` clears one.
- Asynchrony is not modelled. Each handler call is atomic; interleaved in-flight requests and the stale `articles` captured by a handler's closure are concurrency.
- React's batching of state updates is not modelled beyond "the last write in a callback wins".
- Rejections without a `response` (transport failures) crash the `.catch` callback at `error.response`. Every `Rejected` outcome carries a status and a body, so they cannot occur.
- The status split between `.then` and `.catch` is not enforced. Axios resolves on 2xx and rejects otherwise; the model accepts any status on either side and does what the callbacks do with it.
- Response bodies missing a field (JavaScript `undefined`) cannot occur: each endpoint's body is a typed record.
- An exception thrown inside a `.then` callback (for example by the `postArticle` callback) would pass to `.catch`. This is not modelled.
- `splice` is modelled on integer starts and delete counts. The `ToInteger` conversion of non-integral or non-numeric arguments is not modelled.
- The credentials and article fields sent with requests are carried by actions but never read: only the server's reply decides the new state.
