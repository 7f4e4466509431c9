# Friend-list popup: rate-limited fetch and cache

A Dafny model of the controller in `popup.js` of the VRChat friend-list browser
extension. The popup has one button. A click fetches the signed-in user's
record, caches the `friends` list in extension-local storage and shows it in a
textarea. A 60-second cooldown then disables the button, with a count of the
seconds left shown beside it. This model keeps the controller's state and its
rules, and leaves out the DOM, `fetch`, `chrome.*` and the timers:

- **Storage** (`storage.dfy`) covers the four storage keys: `pastFriendsIds`,
  `pastFriendsIdsDate`, `lastError` and `lastPressedDate`. It also holds the
  values stored under them. Each change a handler makes to storage is written
  as a function on the map. The main one is `StoreAfterResponse`: the storage
  after a click, for each response status.
- **Cooldown** (`cooldown.dfy`) holds the countdown arithmetic of
  `buttonCountdown` and the button as a value: disabled flag, count label, and
  the armed interval. It also proves what a run of one-second ticks does to
  the button.
- **PopupController** (`popup.dfy`) is the class `Popup`. Its fields are the
  DOM state the script changes, reduced to flags and values, plus the storage
  map. It has one method per handler. Each method is proved against the
  functions above. The invariant `Valid()` says:
  - the storage holds only what the popup writes;
  - the count label is shown exactly while the button is disabled;
  - the textarea is hidden exactly while the auth error is shown;
  - a disabled button always has an interval counting down to the saved last
    press plus 60 s, so the button is enabled again later (with a single interval; see Timers under "Left out").

Time is a parameter. It is the clock in whole milliseconds (`Time`). A stored
JavaScript number x is held exactly as the integer 1000·x (`Value.Num`). So
`lastPressedDate`, saved in seconds, holds the clock's milliseconds.
`pastFriendsIdsDate`, saved in milliseconds, holds 1000 times that.
`Math.ceil` of the seconds left becomes an integer ceiling division.

The HTTP status and the JSON text of the response's `friends` field are
parameters too. `None` stands for a response with no such field: then
`JSON.stringify` drops the key and the cached list is `{}`.

The click handler is split at its `await fetch`:
- `BeginRequest` covers the part before the request (popup.js:50-53).
- `HandleResponse` covers the part after the response (popup.js:58-68).
  Its branch on the status (popup.js:60-66) is the method `RouteResponse`.
- `HandleButtonEvent` runs the two parts in sequence.

Two behaviours of the code differ from what its comments suggest, and are
modelled as written:

- The comment on handleRateLimiting ("Disable button if rate limited")
  suggests a countdown starts only while the deadline is ahead. The guard at popup.js:124 is `secondsSinceLastPressed < rateLimitTimeOut ||
  !(currentTimeInSeconds <= 0)`. Its second disjunct holds for any clock after
  the epoch. The first holds at the epoch, because a saved press is a
  positive clock reading. So whenever a press time is known,
  `startCountdown` runs. Once the deadline has passed, that immediate
  `buttonCountdown` enables the button and the armed interval clears itself
  on its first tick (`HandleRateLimiting`, `StartedCountdown`).
- A timestamp argument of 0 is falsy at popup.js:109. It is then treated like
  a missing one. The model keeps that case.

## Model

| member | source | states |
|---|---|---|
| Storage.SavedDate | popup.js:231-236 | the saved last press is returned only when truthy; a missing key or a stored 0 reads as null (first use); on well-typed storage a returned press is a positive number |
| Storage.RecordPress | popup.js:106-113 | a truthy timestamp is saved as `lastPressedDate` and is then what getSavedDate reads; a falsy one saves nothing; no other key changes; well-typed storage stays well typed |
| Storage.RestoredList | popup.js:29 | init's textarea text is the cached list when one is stored, the empty string otherwise |
| Storage.WithoutRetrievedData | popup.js:261-264 | exactly `lastError`, `pastFriendsIds` and `pastFriendsIdsDate` are removed; `lastPressedDate` is kept |
| Storage.FriendsJson | popup.js:76 | the cached list is a JSON object text, braces first and last |
| Storage.FriendsJsonRoundTrip | popup.js:76 | the `friends` value can be read back from the cached text, so caching loses nothing |
| Storage.StoreAfterResponse | popup.js:58-98 | after a response: the list and its date are present together, and only after a 200, with the list's JSON and now in ms; `lastError` is null after 200, `authError` after 401, absent otherwise; a 401 keeps `lastPressedDate`, and any other status sets it to now; well-typedness is kept |
| Cooldown.Countdown | popup.js:206-208 | the countdown is the least whole number of seconds covering the time left, and is positive exactly while now is before the deadline |
| Cooldown.CountdownNeverIncreases | popup.js:206-208 | for a fixed deadline a later tick never shows a larger countdown |
| Cooldown.CountdownStep | popup.js:206-218 | one buttonCountdown: the button is disabled exactly while now is before the deadline; the label is then shown with the positive countdown; otherwise the button is enabled, the label hidden and the interval cleared |
| Cooldown.StartedCountdown | popup.js:195-200 | startCountdown leaves an interval armed for the deadline, and the button is disabled, with the countdown shown, exactly while the deadline is ahead |
| Cooldown.StoppedTimerIsInert | popup.js:197-199 | once the interval is cleared, further ticks change nothing |
| Cooldown.TicksUntilDeadline | popup.js:195-218 | an armed interval keeps the button disabled, showing the countdown of the latest tick, while every tick is before the deadline; the first tick at or after it enables the button, hides the label and stops the interval for good |
| PopupController.Popup.constructor | popup.js:2-9 | the popup starts with the button enabled, no countdown, textarea empty and visible, nothing else shown, over the storage left by earlier sessions |
| PopupController.Popup.SaveData | popup.js:254-256 | saveData overwrites one key and nothing else |
| PopupController.Popup.RemovePriorRetrievedData | popup.js:261-264 | storage loses exactly the retrieved data; the saved last press is unchanged |
| PopupController.Popup.ShowAuthError | popup.js:143-153 | showing hides the textarea, shows the notice and saves `authError`; hiding undoes both and saves null |
| PopupController.Popup.ShowLoading | popup.js:182-189 | showing the indicator empties the textarea; hiding leaves the textarea alone |
| PopupController.Popup.ChangeLastUpdated | popup.js:159-176 | the "last updated" label is shown exactly for a truthy date, which it then displays |
| PopupController.Popup.RedirectToLogin | popup.js:131-133 | the login redirect is recorded |
| PopupController.Popup.ButtonCountdown | popup.js:206-218 | the button, label and interval change exactly as CountdownStep says |
| PopupController.Popup.StartCountdown | popup.js:195-200 | the button, label and interval change exactly as StartedCountdown says |
| PopupController.Popup.Tick | popup.js:197-199 | a tick of the armed interval applies buttonCountdown for its deadline, touches no storage and keeps the invariant |
| PopupController.Popup.HandleRateLimiting | popup.js:106-126 | a truthy timestamp is saved and the countdown deadline is that timestamp + 60 s; otherwise the saved press is used; with no press known (first use, `lastPressedDate` missing) the button is untouched; the invariant is kept |
| PopupController.Popup.Init | popup.js:23-37 | storage is unchanged; the button counts down to the saved press + 60 s, or is untouched on first use; textarea, "last updated" label and auth notice are restored from storage |
| PopupController.Popup.HandleResponseSuccess | popup.js:75-82 | the list JSON goes to the textarea and to `pastFriendsIds`, now in ms to `pastFriendsIdsDate` and to the label |
| PopupController.Popup.HandleResponseFailure | popup.js:88-99 | a 401 saves and shows the auth error, redirects, and leaves the button alone; any other status records now as the last press and re-arms the cooldown from it |
| PopupController.Popup.BeginRequest | popup.js:47-56 | a disabled button sends no request and changes nothing; otherwise loading is shown over an emptied textarea before the request |
| PopupController.Popup.RouteResponse | popup.js:60-66 | the status decides between success (auth error cleared, list saved and shown, cooldown re-armed from now) and handleResponseFailure, with each path's storage and UI outcome, including the fallback to the saved press at a zero clock reading |
| PopupController.Popup.HandleResponse | popup.js:58-68 | storage ends as StoreAfterResponse says, loading is hidden after either outcome, and after any status but 401 the button is disabled with 60 s counting down from now; at a zero clock reading the falsy timestamp falls back to the saved press; a 200 at that reading leaves the label's date as it was |
| PopupController.Popup.HandleButtonEvent | popup.js:47-69 | a click on a disabled button changes nothing and sends no request; otherwise the outcome is HandleResponse's, with the textarea emptied on every non-200 status; at a zero clock reading the button follows the saved press |

## Left out

- Network: `fetch` and the JSON parsing of the response body (popup.js:56, 76) are not modelled. The status and the JSON text of `friends` are parameters. A rejected `fetch` (transport failure) is not handled by the code and is not modelled either.
- Navigation: `chrome.tabs.update` (popup.js:131-133) is reduced to the `redirectedToLogin` flag.
- Storage API: `chrome.storage.local` get/set/remove is asynchronous and fire-and-forget (popup.js:241-264). It is modelled as a map updated synchronously in program order, with no failures. The popup is assumed to start over storage holding only what it writes itself (`WellTyped`, required by the constructor).
- Timers: `setInterval`/`clearInterval` timing is not modelled; a tick is an explicit call with its time. The handle `countdownInterval` (popup.js:9) is modelled as one armed interval, named by its deadline. An earlier interval that a later `startCountdown` overwrites without clearing is not modelled. In the code it keeps ticking with its own deadline. If that deadline has passed, its next tick enables the button and clears the newer interval (popup.js:197-199, 214-216). So when the saved press has already expired, a click answered within the first second after opening can end the new cooldown at once. The last clause of `Valid()` (a disabled button is always counting down to the saved press + 60 s) holds only because the model has a single interval.
- Asynchrony: three pieces of async code are modelled as running to completion in program order. These are the un-awaited `handleRateLimiting()` in `init` (popup.js:24), the un-awaited `handleResponseSuccess` (popup.js:62) and the continuation after `fetch`. A second click while a request is outstanding is possible in the code. The model does not explore that interleaving.
- Clock: the separate clock readings inside one event (popup.js:77, 107, 208, 270) are read as one instant `now` per event. Clock values are whole milliseconds, so no float rounding is modelled.
- Presentation: the locale date formatting of the "last updated" label (popup.js:160-174) is left out; the label keeps the date value it shows. The count label text `(n)` is kept as its number n. CSS styling is reduced to visibility flags.
- Page setup: `document.getElementById` lookups, `event.preventDefault()` (popup.js:48) and the click-listener registration (popup.js:36) are not modelled. The initial DOM state comes from the popup's HTML page, which is not part of this model. The constructor assumes an enabled button and empty or hidden elements.
