# txt-collab: local-first document cache, in Dafny

TextCollab is a single-document text editor that keeps each document in two
places: the browser's `localStorage` (key `document_<id>`) and a Firebase
realtime database (path `documents/<id>`). This project models the
local-first cache/remote policy of its document service
(`lib/firebase-service.ts`) and the clear rule of its text area
(`components/simple-editor.tsx`), and proves what those promise.

The service is modelled as pure transitions over two maps keyed by document
id (`Documents.State`): `local` holds a `LocalEntry`, either `Valid(doc)` (a
stored string that parses to a document record) or `Corrupt` (a non-empty
string that does not); `remote` holds `Doc` records. Each operation takes the
stores, the remote's success or failure as booleans (`getFails`, `setFails`),
and its clock readings as strings, and returns the new stores with an
`Outcome`: `Returned(doc)`, `ReturnedId(id)`, `ReturnedNull`, `ReturnedTrue`
or `Threw`.

Modules:

- `Wrappers` (`wrappers.dfy`): `Option`.
- `Documents` (`documents.dfy`): the records, the stores, the outcomes, the
  two fixed contents and the placeholder document.
- `FirebaseService` (`firebase_service.dfy`): `getDocument` (split into its
  `try` and `catch` blocks), `updateDocument`, the `onValue` snapshot handler
  of `subscribeToDocument`, and `createNewDocument`.
- `EditHistory` (`edit_history.dfy`): any sequence of `updateDocument` calls,
  with inductive proofs about what the stores hold afterwards.
- `SyncProperties` (`sync_properties.dfy`): lemmas that chain operations
  together.
- `SimpleEditor` (`simple_editor.dfy`): `handleKeyDown` and `handleChange`.

Behaviours of the code worth knowing:

- A cache entry that does not parse is overwritten by `updateDocument`, but
  makes `getDocument` throw whenever the remote store does not supply the
  document, because its `catch` block parses the same entry again
  (`lib/firebase-service.ts:82`, `:105`).
- The cache does not always hold the latest write. When a push fails and the
  remote store already holds another version of the document, the next
  reachable load (`lib/firebase-service.ts:69-76`) and the snapshot handler
  (`:175-180`) both overwrite the cached write with the remote version
  (`SyncProperties.StaleRemoteOverwritesFailedWrite`).
- `createdAt` is set once only across a run of updates, not across reloads.
  A document from `createNewDocument` is stored remotely without `createdAt`.
  If its first update stamps `createdAt` but fails to push, a reachable
  reload caches the remote record again, and the next update stamps a new
  `createdAt` (`SyncProperties.CreatedAtResetByReload`).
- `createdAt` is carried forward only when it is truthy, meaning present and
  non-empty. A prior entry whose `createdAt` is missing or empty gets the
  update's timestamp.
- `createNewDocument` writes `{content: "Initial content"}` with no
  timestamps.

## Model

| member | source | states |
|---|---|---|
| FirebaseService.LoadAttempt | lib/firebase-service.ts:60-98 | The `try` block of `getDocument` throws exactly when the remote read fails, or the document is remote-absent and either the remote write fails or the cached entry does not parse; every throw leaves both stores untouched |
| FirebaseService.LoadFallback | lib/firebase-service.ts:99-117 | The `catch` block never writes remotely; it returns a parseable cached entry unchanged, throws on a corrupt one, and otherwise caches and returns a placeholder stamped with its own clock reading |
| FirebaseService.GetDocument | lib/firebase-service.ts:55-118 | Four-way load: a remote hit is returned and overwrites the cache; a remote miss or failure with a parseable cache entry returns that entry and pushes it only when the remote calls succeed; a corrupt entry makes the call throw and changes nothing; nothing stored yields the placeholder, cached always and stored remotely only when both remote calls succeed; the returned document is what the cache holds afterwards; no other id changes |
| FirebaseService.UpdateDocument | lib/firebase-service.ts:123-160 | The cache holds the new content and `updatedAt = timestamp` even when the push fails; `createdAt` is kept from a parseable entry with a truthy `createdAt` and is the timestamp otherwise; success pushes exactly the cached record and returns true; failure rethrows with the remote store unchanged |
| FirebaseService.OnSnapshot | lib/firebase-service.ts:174-185 | An existing snapshot overwrites the cache entry with its data and delivers exactly its content; a missing one changes nothing and calls nothing; the remote store is never written |
| FirebaseService.CreateNewDocument | lib/firebase-service.ts:222-253 | Never throws; returns the pushed key exactly when key generation and the write succeed, after storing `{content: "Initial content"}` without timestamps under it; otherwise returns null and changes nothing; the cache is never touched |
| EditHistory.UpdateAll | lib/firebase-service.ts:127-147 | After any non-empty run of updates, the cache holds the last update's content and timestamp whatever the remote did, and no other document changes in either store |
| EditHistory.CreatedAtSetOnce | lib/firebase-service.ts:131-145 | Across any run of updates, `createdAt` is fixed by the first update (carried forward or that update's timestamp) and never changes afterwards |
| EditHistory.LastPushWins | lib/firebase-service.ts:147-158 | After a run of updates the remote store holds the content and timestamp of the last update whose push succeeded, and is unchanged if none did |
| EditHistory.OfflineReloadShowsLatest | lib/firebase-service.ts:99-106 | After any run of updates, loading while the remote is unreachable returns the last update's content and writes nothing |
| SyncProperties.EchoOfUpdateIsHarmless | lib/firebase-service.ts:174-185 | Handling the database's echo of a successful update leaves both stores unchanged and delivers the content just written |
| SyncProperties.LoadAfterFailedPushResyncs | lib/firebase-service.ts:80-85 | An update whose push failed is pushed by the next reachable load of a remote-absent document, after which cache and remote agree |
| SyncProperties.StaleRemoteOverwritesFailedWrite | lib/firebase-service.ts:69-76 | When a push fails and the remote store holds another version, the next reachable load returns and caches the remote version, the subscription snapshot does the same, and the failed write's content is gone from the cache |
| SyncProperties.CreatedAtResetByReload | lib/firebase-service.ts:138-141 | For a created document whose first update fails to push, a reachable reload restores the untimestamped remote record, and the next update stamps `createdAt` with its own time instead of the first update's |
| SyncProperties.LoadTwiceIsLoadOnce | lib/firebase-service.ts:62-98 | After a load in which both remote calls succeed, cache and remote agree, and loading again returns the same document and changes nothing |
| SyncProperties.NewDocumentLoadsInitialContent | lib/firebase-service.ts:236-243 | A newly created document loads as the initial content without timestamps, and its first update stamps `createdAt` with that update's time |
| SimpleEditor.KeyDown | components/simple-editor.tsx:39-52 | Delete or Backspace with the whole non-empty value selected is intercepted and clears the value; any other key, a partial selection or an empty value is let through; an intercepted key leaves the value the browser's own deletion of the selection would |
| SimpleEditor.HandleChange | components/simple-editor.tsx:31-33 | The text area's new value is passed to `onChange` unchanged |
| SimpleEditor.ClearedValueIsNotInterceptedAgain | components/simple-editor.tsx:43-50 | Once the clear rule has emptied the value, no further key is intercepted |

## Left out

- Firebase app and emulator initialisation and environment configuration (`lib/firebase-service.ts:1-43`): module-level setup of a library outside this model.
- The server-side rendering guards (`typeof window === "undefined"`), which make each operation return early; the model describes the browser path only.
- `isOnline` and `listenToOnlineStatus`: they read `navigator.onLine` and register window event listeners.
- Registration and removal of the `onValue` listener and its error callback; only the snapshot handler is modelled.
- `console` logging.
- JSON serialisation: a stored string is modelled by whether it parses to a record (`Valid`) or not (`Corrupt`). A stored value that parses to something other than a record, and an empty stored string, are not modelled; the service itself only ever stores serialised records.
- Interleaving: each asynchronous call is modelled as one atomic step that either completes or fails. The source pauses at `await get` (`lib/firebase-service.ts:67`) and at each `await set` (`:83`, `:94`, `:152`, `:240`). `getDocument` reads the cache at `:62`, before the read awaits, and uses that copy at `:81-83`; its `catch` block reads it again at `:103`. A snapshot (`:180`) or an `updateDocument` (`:147`) that writes the cache during the await is missed by the source's remote-miss branch but seen by `LoadAttempt`. A call that never settles is not modelled either.
- Clock: `new Date().toISOString()` readings are parameters. The two readings inside one placeholder literal are taken to be the same instant.
- The `id` argument may be `undefined` in the source (giving the key `document_undefined`); ids are plain strings here.
- `localStorage.setItem` failures such as an exceeded quota are not modelled: local writes always succeed.
- The document page (`app/document/[id]/page.tsx`): its debounce timer, `offlineMode` flag, resync on reconnection and subscriber guard are not part of this model.
- Selection offsets: the DOM counts `selectionStart`, `selectionEnd` and `value.length` in UTF-16 code units, while `SimpleEditor.KeyDown` takes them in Dafny characters. The whole-value-selected decision is the same in either unit.
- Text-area focus and auto-height styling (`components/simple-editor.tsx:15-29`, `:34-36`), the dictation component, routing, `nanoid` id generation, layout and the mobile hook.
