/** The editor's text area handlers: the "select all, then delete" clear
    rule and the change pass-through. The text area is taken to be mounted. */
module SimpleEditor {
  import opened Wrappers

  /** The two keys the clear rule listens to. */
  predicate IsDeletionKey(key: string) {
    key == "Delete" || key == "Backspace"
  }

  /** The value a browser leaves when it deletes the selection
      [selStart, selEnd) of `value` itself. */
  function RemoveSelection(value: string, selStart: nat, selEnd: nat): string
    requires selStart <= selEnd <= |value|
  {
    value[..selStart] + value[selEnd..]
  }

  /** `handleKeyDown`: `Some(v)` when the handler prevents the key's default
      action and calls `onChange(v)`, `None` when it lets the key through. */
  function KeyDown(key: string, selStart: nat, selEnd: nat, value: string): (r: Option<string>)
    // only Delete and Backspace are ever intercepted
    ensures !IsDeletionKey(key) ==> r.None?
    // a partial selection is left to the browser
    ensures selStart > 0 || selEnd != |value| ==> r.None?
    // an empty value is never intercepted
    ensures |value| == 0 ==> r.None?
    // the whole non-empty value selected: the handler clears it
    ensures IsDeletionKey(key) && selStart == 0 && selEnd == |value| && |value| > 0 ==> r == Some("")
    // an intercepted key has the effect the browser's own deletion would have had
    ensures r.Some? ==> selStart <= selEnd <= |value| && r.value == RemoveSelection(value, selStart, selEnd)
  {
    if IsDeletionKey(key) && selStart == 0 && selEnd == |value| && |value| > 0 then Some("")
    else None
  }

  /** `handleChange`: the value the text area reports is handed to
      `onChange`, as the emitted value. */
  function HandleChange(targetValue: string): (emitted: string)
    ensures emitted == targetValue
  {
    targetValue
  }

  /** Clearing is idempotent: once the clear rule has emptied the value, no
      further key is intercepted. */
  lemma ClearedValueIsNotInterceptedAgain(key: string, selStart: nat, selEnd: nat, value: string, key': string, selStart': nat, selEnd': nat)
    requires KeyDown(key, selStart, selEnd, value).Some?
    ensures KeyDown(key', selStart', selEnd', KeyDown(key, selStart, selEnd, value).value).None?
  {
  }
}
