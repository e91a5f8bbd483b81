/** The local-first cache/remote policy of the document service, as pure
    transitions over the two stores. Whether a remote `get` or `set` fails is
    fixed in advance by a boolean parameter, and every clock reading is a
    parameter. */
module FirebaseService {
  import opened Wrappers
  import opened Documents

  /** Where the `try` block of `getDocument` ends: it completes with a
      document and the stores it left, or it throws with the stores as they
      were at the throw. */
  datatype Attempt = Completed(st: State, doc: Doc) | Raised(st: State)

  /** The `try` block of `getDocument`. */
  function LoadAttempt(s: State, id: string, getFails: bool, setFails: bool, now: string): (a: Attempt)
    // every throw inside the block happens before the block writes anything
    ensures a.Raised? ==> a.st == s
    ensures a.Raised? <==> getFails || (id !in s.remote && (setFails || (id in s.local && s.local[id] == Corrupt)))
  {
    if getFails then Raised(s)
    else if id in s.remote then
      var d := s.remote[id];
      Completed(s.(local := s.local[id := Valid(d)]), d)
    else if id in s.local then
      match s.local[id]
      case Corrupt => Raised(s)
      case Valid(d) =>
        if setFails then Raised(s)
        else Completed(s.(remote := s.remote[id := d]), d)
    else
      var p := Placeholder(now);
      if setFails then Raised(s)
      else Completed(State(s.local[id := Valid(p)], s.remote[id := p]), p)
  }

  /** The `catch` block of `getDocument`: re-read the local entry and either
      return it, throw because it does not parse, or cache a fresh
      placeholder locally. */
  function LoadFallback(s: State, id: string, later: string): (r: (State, Outcome))
    ensures r.0.remote == s.remote
    ensures r.1.Returned? || r.1.Threw?
    ensures r.1.Threw? <==> id in s.local && s.local[id] == Corrupt
    ensures r.1.Threw? ==> r.0 == s
    ensures HasValidLocal(s, id) ==> r == (s, Returned(s.local[id].doc))
    ensures id !in s.local ==> r.1 == Returned(Placeholder(later)) && r.0.local == s.local[id := Valid(Placeholder(later))]
  {
    if id in s.local then
      match s.local[id]
      case Valid(d) => (s, Returned(d))
      case Corrupt => (s, Threw)
    else
      var p := Placeholder(later);
      (s.(local := s.local[id := Valid(p)]), Returned(p))
  }

  /** `getDocument(id)`: load from the remote store, falling back to the
      local cache, and invent a placeholder when neither has the document.
      `now` is the clock reading of the `try` block, `later` that of the
      `catch` block. */
  function GetDocument(s: State, id: string, getFails: bool, setFails: bool, now: string, later: string): (r: (State, Outcome))
    // only the entries for `id` can change
    ensures r.0.local - {id} == s.local - {id}
    ensures r.0.remote - {id} == s.remote - {id}
    // the call either resolves to a document or throws
    ensures r.1.Returned? || r.1.Threw?
    // remote hit: the remote document is returned and overwrites the cache
    ensures !getFails && id in s.remote ==>
      r.1 == Returned(s.remote[id]) && id in r.0.local && r.0.local[id] == Valid(s.remote[id]) && r.0.remote == s.remote
    // remote miss or remote failure with a parseable cache entry: that entry is returned;
    // it is pushed to the remote store exactly when the remote calls succeed
    ensures (getFails || id !in s.remote) && HasValidLocal(s, id) ==>
      r.1 == Returned(s.local[id].doc) && r.0.local == s.local &&
      r.0.remote == (if getFails || setFails then s.remote else s.remote[id := s.local[id].doc])
    // a cache entry that does not parse makes the call throw unless the remote store has the document
    ensures r.1.Threw? <==> (getFails || id !in s.remote) && id in s.local && s.local[id] == Corrupt
    ensures r.1.Threw? ==> r.0 == s
    // nothing anywhere: a placeholder is cached; it reaches the remote store only when both remote calls succeed
    ensures (getFails || id !in s.remote) && id !in s.local ==>
      r.1.Returned? && r.1.doc.content == PlaceholderContent &&
      id in r.0.local && r.0.local[id] == Valid(r.1.doc) &&
      (if getFails || setFails
       then r.1.doc == Placeholder(later) && r.0.remote == s.remote
       else r.1.doc == Placeholder(now) && r.0.remote == s.remote[id := r.1.doc])
    // whatever is returned is what the cache holds afterwards
    ensures r.1.Returned? ==> id in r.0.local && r.0.local[id] == Valid(r.1.doc)
  {
    match LoadAttempt(s, id, getFails, setFails, now)
    case Completed(st, d) => (st, Returned(d))
    case Raised(st) => LoadFallback(st, id, later)
  }

  /** The `createdAt` that `updateDocument` gives the record it writes: the
      prior cached one when the cached entry parses and its `createdAt` is
      truthy, the update's own timestamp otherwise. */
  function CarriedCreatedAt(s: State, id: string, timestamp: string): string {
    if HasValidLocal(s, id) && Truthy(s.local[id].doc.createdAt)
    then s.local[id].doc.createdAt.value
    else timestamp
  }

  /** The record `updateDocument` writes to both stores. */
  function UpdatedRecord(s: State, id: string, content: string, timestamp: string): Doc {
    Doc(content, Some(CarriedCreatedAt(s, id, timestamp)), Some(timestamp))
  }

  /** `updateDocument(id, content)`: write through to the cache first, then
      push the same record remotely, rethrowing a remote failure. */
  function UpdateDocument(s: State, id: string, content: string, timestamp: string, setFails: bool): (r: (State, Outcome))
    // the cache holds the new content whether or not the push succeeds
    ensures id in r.0.local && r.0.local[id].Valid?
    ensures r.0.local[id].doc.content == content && r.0.local[id].doc.updatedAt == Some(timestamp)
    ensures r.0.local - {id} == s.local - {id}
    // createdAt is carried forward from a parseable entry with a truthy createdAt
    ensures HasValidLocal(s, id) && Truthy(s.local[id].doc.createdAt) ==>
      r.0.local[id].doc.createdAt == s.local[id].doc.createdAt
    // otherwise (absent, corrupt, or falsy createdAt) it is the update's timestamp
    ensures !(HasValidLocal(s, id) && Truthy(s.local[id].doc.createdAt)) ==>
      r.0.local[id].doc.createdAt == Some(timestamp)
    // success pushes exactly the cached record; failure rethrows and the remote store is untouched
    ensures !setFails ==> r.1 == ReturnedTrue && r.0.remote == s.remote[id := r.0.local[id].doc]
    ensures setFails ==> r.1 == Threw && r.0.remote == s.remote
  {
    var rec := UpdatedRecord(s, id, content, timestamp);
    var cached := s.(local := s.local[id := Valid(rec)]);
    if setFails then (cached, Threw)
    else (cached.(remote := cached.remote[id := rec]), ReturnedTrue)
  }

  /** The value the realtime database reports for `documents/<id>`; `None`
      for a snapshot that does not exist. */
  function RemoteSnapshot(s: State, id: string): Option<Doc> {
    if id in s.remote then Some(s.remote[id]) else None
  }

  /** The `onValue` handler installed by `subscribeToDocument`: an existing
      snapshot overwrites the cache and delivers its content to the
      subscriber; a missing one does nothing. The second component is the
      content handed to the callback, if it is called. */
  function OnSnapshot(s: State, id: string, snapshot: Option<Doc>): (r: (State, Option<string>))
    ensures r.0.remote == s.remote
    ensures r.0.local - {id} == s.local - {id}
    ensures snapshot.None? ==> r.0 == s && r.1.None?
    ensures snapshot.Some? ==>
      id in r.0.local && r.0.local[id] == Valid(snapshot.value) && r.1 == Some(snapshot.value.content)
  {
    match snapshot
    case None => (s, None)
    case Some(data) => (s.(local := s.local[id := Valid(data)]), Some(data.content))
  }

  /** `createNewDocument()`: allocate a key under `documents` and store the
      initial record there. `key` is what `push` produced (`None` when it
      threw); `setFails` says whether the write fails. */
  function CreateNewDocument(s: State, key: Option<string>, setFails: bool): (r: (State, Outcome))
    // never throws: it resolves to the new id or to null
    ensures r.1.ReturnedId? || r.1.ReturnedNull?
    ensures r.1.ReturnedId? <==> key.Some? && !setFails
    ensures r.1.ReturnedId? ==>
      r.1.id == key.value && r.0.local == s.local &&
      r.0.remote == s.remote[key.value := Doc(InitialContent, None, None)]
    ensures r.1.ReturnedNull? ==> r.0 == s
  {
    match key
    case None => (s, ReturnedNull)
    case Some(k) =>
      if setFails then (s, ReturnedNull)
      else (s.(remote := s.remote[k := Doc(InitialContent, None, None)]), ReturnedId(k))
  }
}
