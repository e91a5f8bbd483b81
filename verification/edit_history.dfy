/** Any sequence of `updateDocument` calls on one document, and what the
    two stores hold after it. */
module EditHistory {
  import opened Wrappers
  import opened Documents
  import opened FirebaseService

  /** One `updateDocument` call: the content, the clock reading it takes,
      and whether its remote write fails. */
  datatype Edit = Edit(content: string, timestamp: string, setFails: bool)

  /** The stores after issuing `edits` in order against document `id`. A
      rethrown remote failure does not stop later edits: the caller catches
      it. */
  function UpdateAll(s: State, id: string, edits: seq<Edit>): (r: State)
    // no other document is touched, in either store
    ensures r.local - {id} == s.local - {id}
    ensures r.remote - {id} == s.remote - {id}
    // the cache holds the last edit's content and timestamp, whatever the remote did
    ensures |edits| > 0 ==>
      id in r.local && r.local[id].Valid? &&
      r.local[id].doc.content == edits[|edits| - 1].content &&
      r.local[id].doc.updatedAt == Some(edits[|edits| - 1].timestamp)
    decreases |edits|
  {
    if |edits| == 0 then s
    else
      var e := edits[|edits| - 1];
      UpdateDocument(UpdateAll(s, id, edits[..|edits| - 1]), id, e.content, e.timestamp, e.setFails).0
  }

  /** The last edit of `edits` whose remote write succeeds, if any. */
  function LastPushed(edits: seq<Edit>): Option<Edit>
    decreases |edits|
  {
    if |edits| == 0 then None
    else if !edits[|edits| - 1].setFails then Some(edits[|edits| - 1])
    else LastPushed(edits[..|edits| - 1])
  }

  /** `createdAt` is fixed by the first edit and never changes afterwards:
      it is the cached `createdAt` carried forward by the first edit, or that
      edit's own timestamp. A clock reading (an ISO-8601 string) is never
      empty. */
  lemma {:induction false} CreatedAtSetOnce(s: State, id: string, edits: seq<Edit>)
    requires |edits| > 0
    requires edits[0].timestamp != ""
    ensures UpdateAll(s, id, edits).local[id].doc.createdAt == Some(CarriedCreatedAt(s, id, edits[0].timestamp))
    decreases |edits|
  {
    if |edits| > 1 {
      var init := edits[..|edits| - 1];
      assert init[0] == edits[0];
      CreatedAtSetOnce(s, id, init);
      var prev := UpdateAll(s, id, init);
      assert Truthy(prev.local[id].doc.createdAt);
    }
  }

  /** The remote store holds the record of the last edit whose push
      succeeded; when every push failed it is exactly as before. */
  lemma {:induction false} LastPushWins(s: State, id: string, edits: seq<Edit>)
    ensures LastPushed(edits).None? ==> UpdateAll(s, id, edits).remote == s.remote
    ensures LastPushed(edits).Some? ==>
      var r := UpdateAll(s, id, edits);
      id in r.remote &&
      r.remote[id].content == LastPushed(edits).value.content &&
      r.remote[id].updatedAt == Some(LastPushed(edits).value.timestamp)
    decreases |edits|
  {
    if |edits| > 0 && edits[|edits| - 1].setFails {
      LastPushWins(s, id, edits[..|edits| - 1]);
    }
  }

  /** After any sequence of updates, a load while the remote store is
      unreachable returns the last update's content and changes nothing. */
  lemma OfflineReloadShowsLatest(s: State, id: string, edits: seq<Edit>, setFails: bool, now: string, later: string)
    requires |edits| > 0
    ensures
      var st := UpdateAll(s, id, edits);
      var r := GetDocument(st, id, true, setFails, now, later);
      r.0 == st && r.1.Returned? && r.1.doc.content == edits[|edits| - 1].content
  {
  }
}
