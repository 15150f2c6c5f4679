/** The part of the application state the selection engine and the
    post-processing pipeline read and write. */
module State {
  import opened Base

  /** One directory entry: its base name and its persistent selection flag. */
  datatype Entry = Entry(name: string, selected: bool)

  /** The entries of one directory, in display order, and the cursor. */
  datatype DirList = DirList(contents: seq<Entry>, index: Option<nat>) {

    /** The cursor is absent exactly when the list is empty, and in range
        otherwise. */
    ghost predicate Valid() {
      && (index.None? <==> |contents| == 0)
      && (index.Some? ==> index.value < |contents|)
    }

    /** Position of the current entry: the cursor, when it points into the
        list (as `curr_entry_mut` looks the cursor up). */
    function CurrIndex(): (r: Option<nat>)
      ensures r.Some? <==> index.Some? && index.value < |contents|
      ensures r.Some? ==> r == index
    {
      if index.Some? && index.value < |contents| then index else None
    }
  }

  /** An informational notice for the user. */
  datatype Message = Info(text: string)

  /** The current directory list of the active tab (absent when none is
      loaded), the message queue, and the last captured command output
      (absent until a first capture). */
  datatype AppState = AppState(
    currList: Option<DirList>,
    messages: seq<Message>,
    lastStdout: Option<string>)

  /** A command's effect: the state after it ran, and its result. The state
      is reported even on an error, because the commands mutate in place. */
  datatype Step = Step(state: AppState, result: AppResult)

  /** `s` with the entries of its current list replaced by `cs`. */
  function WithContents(s: AppState, cs: seq<Entry>): (t: AppState)
    requires s.currList.Some?
    ensures t.currList.Some? && t.currList.value.contents == cs
    ensures t.currList.value.index == s.currList.value.index
    ensures t.messages == s.messages && t.lastStdout == s.lastStdout
  {
    s.(currList := Some(s.currList.value.(contents := cs)))
  }
}
