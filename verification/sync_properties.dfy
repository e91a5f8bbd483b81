/** How the operations of the document service fit together: the echo of a
    successful write, a reload that resynchronises a failed write, loading
    twice, and loading a freshly created document. */
module SyncProperties {
  import opened Wrappers
  import opened Documents
  import opened FirebaseService

  /** The realtime database echoes every successful write back to the
      subscriber; handling the echo of an `updateDocument` leaves both stores
      as they are and delivers the content just written. */
  lemma EchoOfUpdateIsHarmless(s: State, id: string, content: string, timestamp: string)
    ensures
      var st := UpdateDocument(s, id, content, timestamp, false).0;
      OnSnapshot(st, id, RemoteSnapshot(st, id)) == (st, Some(content))
  {
    var st := UpdateDocument(s, id, content, timestamp, false).0;
    assert st.local[id := Valid(st.remote[id])] == st.local;
  }

  /** A write whose push failed, on a document the remote store lacks: the
      next load with the remote store reachable pushes the cached record,
      returns it, and both stores agree. */
  lemma LoadAfterFailedPushResyncs(s: State, id: string, content: string, timestamp: string, now: string, later: string)
    requires id !in s.remote
    ensures
      var st := UpdateDocument(s, id, content, timestamp, true).0;
      var r := GetDocument(st, id, false, false, now, later);
      r.1.Returned? && r.1.doc.content == content && Synced(r.0, id)
  {
  }

  /** Once a load has succeeded with the remote store reachable, the
      document is cached as stored remotely and loading again (reachable)
      returns the same document and changes nothing. */
  lemma LoadTwiceIsLoadOnce(s: State, id: string, setFails: bool, setFails': bool, now: string, now': string, later: string, later': string)
    requires !setFails && GetDocument(s, id, false, setFails, now, later).1.Returned?
    ensures
      var (st, out) := GetDocument(s, id, false, setFails, now, later);
      Synced(st, id) && GetDocument(st, id, false, setFails', now', later') == (st, out)
  {
    var (st, out) := GetDocument(s, id, false, setFails, now, later);
    assert st.local[id := Valid(st.remote[id])] == st.local;
  }

  /** A document created by `createNewDocument` loads with the initial
      content and no timestamps, and the first edit of it stamps
      `createdAt` with that edit's own time. */
  lemma NewDocumentLoadsInitialContent(s: State, k: string, now: string, later: string, content: string, timestamp: string)
    ensures
      var created := CreateNewDocument(s, Some(k), false);
      var loaded := GetDocument(created.0, k, false, false, now, later);
      var edited := UpdateDocument(loaded.0, k, content, timestamp, false);
      created.1 == ReturnedId(k) &&
      loaded.1 == Returned(Doc(InitialContent, None, None)) &&
      edited.0.local[k].doc.createdAt == Some(timestamp)
  {
  }

  /** A write whose push failed, on a document the remote store already
      holds in another version: the next load with the remote store
      reachable returns the remote version and overwrites the cached edit
      with it, and so does the snapshot delivered on subscribing. Either way
      the cache no longer holds the failed write's content. */
  lemma StaleRemoteOverwritesFailedWrite(s: State, id: string, content: string, timestamp: string, setFails: bool, now: string, later: string)
    requires id in s.remote && s.remote[id].content != content
    ensures
      var st := UpdateDocument(s, id, content, timestamp, true).0;
      var loaded := GetDocument(st, id, false, setFails, now, later);
      var notified := OnSnapshot(st, id, RemoteSnapshot(st, id));
      loaded.1 == Returned(s.remote[id]) && loaded.0.local[id] == Valid(s.remote[id]) &&
      notified == (loaded.0, Some(s.remote[id].content)) &&
      loaded.0.local[id].doc.content != content
  {
  }

  /** `createdAt` is set once only across a run of updates, not across
      reloads: a created document whose first update fails to push is
      reloaded as the remote record without timestamps, so the next update
      stamps `createdAt` afresh. */
  lemma CreatedAtResetByReload(s: State, k: string, c1: string, t1: string, c2: string, t2: string, setFails: bool, setFails': bool, now: string, later: string)
    requires k !in s.local
    ensures
      var created := CreateNewDocument(s, Some(k), false).0;
      var first := UpdateDocument(created, k, c1, t1, true).0;
      var reloaded := GetDocument(first, k, false, setFails, now, later).0;
      var second := UpdateDocument(reloaded, k, c2, t2, setFails').0;
      first.local[k].doc.createdAt == Some(t1) &&
      reloaded.local[k] == Valid(Doc(InitialContent, None, None)) &&
      second.local[k].doc.createdAt == Some(t2)
  {
  }
}
