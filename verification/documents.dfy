/** The records the document service keeps in its two key-value stores:
    the browser's `localStorage` (keys `document_<id>`) and the realtime
    database (paths `documents/<id>`). Both stores are keyed here by the bare
    document id, since each key prefix is fixed. */
module Documents {
  import opened Wrappers

  /** A document record. `createdAt` and `updatedAt` are optional because the
      record written by `createNewDocument` carries neither. */
  datatype Doc = Doc(content: string, createdAt: Option<string>, updatedAt: Option<string>)

  /** What `localStorage` holds under one key: a string that parses to a
      document record, or a non-empty string that does not parse. */
  datatype LocalEntry = Valid(doc: Doc) | Corrupt

  /** The two stores the service reads and writes. */
  datatype State = State(local: map<string, LocalEntry>, remote: map<string, Doc>)

  /** How a call of the service ends: the value it resolves to, or a thrown error. */
  datatype Outcome =
    | Returned(doc: Doc)
    | ReturnedId(id: string)
    | ReturnedNull
    | ReturnedTrue
    | Threw

  /** Content of the document `getDocument` invents for an id nobody has stored. */
  const PlaceholderContent: string :=
    "Start typing here...\n\nShare this link with others to collaborate in real-time."

  /** Content of the document `createNewDocument` writes. */
  const InitialContent: string := "Initial content"

  /** The placeholder document stamped with one clock reading. */
  function Placeholder(now: string): Doc {
    Doc(PlaceholderContent, Some(now), Some(now))
  }

  /** JavaScript truthiness of an optional string field: present and non-empty. */
  predicate Truthy(field: Option<string>) {
    field.Some? && field.value != ""
  }

  /** The local entry for `id` parses to a document record. */
  predicate HasValidLocal(s: State, id: string) {
    id in s.local && s.local[id].Valid?
  }

  /** The document cached locally and the one stored remotely for `id` coincide. */
  predicate Synced(s: State, id: string) {
    id in s.local && id in s.remote && s.local[id] == Valid(s.remote[id])
  }
}
