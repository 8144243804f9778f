/** The dirty-state tracker of the editor window, as values.
    A `Window` holds every field the five handlers read or write; each handler is a
    function from the window before the event to the window after it. The class in
    module Editor updates the same fields in place and is proved against these functions. */
module Document {

  /** The status label's text while no file is bound. */
  const NoFileLabel := "No File opened"

  /** `textBuffer`: the text last loaded or saved, and whether a file is bound. */
  datatype TextBuffer = TextBuffer(saved: string, hasFile: bool)

  /** Everything the handlers touch: the text buffer, the bound path, the Save action's
      enabled flag, the status label's text, the editor's text and the files on disk. */
  datatype Window = Window(
    buffer: TextBuffer,
    curFile: string,
    saveEnabled: bool,
    display: string,
    text: string,
    disk: map<string, string>)

  /** What every handler keeps true: a path is bound exactly when `hasFile` holds, the status
      label shows that path (or the placeholder before any file is bound), and Save is never
      enabled without a bound file. */
  predicate Inv(w: Window)
  {
    && (w.curFile != "" <==> w.buffer.hasFile)
    && w.display == (if w.buffer.hasFile then w.curFile else NoFileLabel)
    && (w.saveEnabled ==> w.buffer.hasFile)
  }

  /** The window as constructed: nothing bound, empty editor, Save disabled. */
  function Init(disk: map<string, string>): (w: Window)
    ensures Inv(w)
    ensures w.buffer == TextBuffer("", false) && w.curFile == ""
    ensures !w.saveEnabled && w.text == "" && w.disk == disk
  {
    Window(TextBuffer("", false), "", false, NoFileLabel, "", disk)
  }

  /** The editor's text becomes `t` (a user edit, or `setPlainText`). */
  function SetText(w: Window, t: string): (r: Window)
    ensures r.text == t
    ensures r.(text := w.text) == w
  {
    w.(text := t)
  }

  /** The `textChanged` handler: with a file bound, Save is enabled exactly when the
      editor text differs from the saved text; with none bound, nothing changes. */
  function CheckSaveBuffer(w: Window): (r: Window)
    ensures !w.buffer.hasFile ==> r == w
    ensures w.buffer.hasFile ==> (r.saveEnabled <==> w.text != w.buffer.saved)
    ensures r.(saveEnabled := w.saveEnabled) == w
  {
    if !w.buffer.hasFile then w
    else if w.text != w.buffer.saved then w.(saveEnabled := true)
    else w.(saveEnabled := false)
  }

  /** New File: an empty dialog result changes nothing; otherwise the file is created
      (truncated) on disk and bound with an empty saved text, while the editor text and
      the Save flag stay as they were. */
  function CreateFile(w: Window, f: string): (r: Window)
    ensures f == "" ==> r == w
    ensures f != "" ==>
      && r.disk == w.disk[f := ""]
      && r.buffer == TextBuffer("", true)
      && r.curFile == f && r.display == f
      && r.text == w.text && r.saveEnabled == w.saveEnabled
  {
    if f == "" then w
    else w.(disk := w.disk[f := ""], buffer := TextBuffer("", true), curFile := f, display := f)
  }

  /** Open File: an empty dialog result, or a path with no file behind it (where reading
      raises before any field is assigned), changes nothing. Otherwise the editor and the
      saved text both become the file's contents and the path is bound. Setting the
      editor text delivers `textChanged` before the buffer is replaced, so the Save flag
      is the one `CheckSaveBuffer` computes against the buffer of the previous file. */
  function OpenFile(w: Window, f: string): (r: Window)
    ensures f == "" || f !in w.disk ==> r == w
    ensures f != "" && f in w.disk ==>
      && r.text == w.disk[f]
      && r.buffer == TextBuffer(w.disk[f], true)
      && r.curFile == f && r.display == f
      && r.disk == w.disk
      && r.saveEnabled == (if w.buffer.hasFile then w.disk[f] != w.buffer.saved else w.saveEnabled)
  {
    if f == "" || f !in w.disk then w
    else
      var content := w.disk[f];
      var shown := CheckSaveBuffer(SetText(w, content));
      shown.(buffer := TextBuffer(content, true), curFile := f, display := f)
  }

  /** Save: with no bound path nothing changes; otherwise the editor text is written to
      the bound path, becomes the saved text, and Save is disabled. */
  function SaveFile(w: Window): (r: Window)
    ensures w.curFile == "" ==> r == w
    ensures w.curFile != "" ==>
      && r.disk == w.disk[w.curFile := w.text]
      && r.buffer == TextBuffer(w.text, w.buffer.hasFile)
      && !r.saveEnabled
      && r.curFile == w.curFile && r.display == w.display && r.text == w.text
  {
    if w.curFile == "" then w
    else w.(disk := w.disk[w.curFile := w.text], buffer := w.buffer.(saved := w.text), saveEnabled := false)
  }

  /** Save As: an empty dialog result changes nothing; otherwise the editor text is
      written to the chosen path, becomes the saved text, and that path is bound. The
      Save flag is left as it was. */
  function SaveFileAs(w: Window, f: string): (r: Window)
    ensures f == "" ==> r == w
    ensures f != "" ==>
      && r.disk == w.disk[f := w.text]
      && r.buffer == TextBuffer(w.text, true)
      && r.curFile == f && r.display == f
      && r.text == w.text && r.saveEnabled == w.saveEnabled
  {
    if f == "" then w
    else w.(disk := w.disk[f := w.text], buffer := TextBuffer(w.text, true), curFile := f, display := f)
  }

  /** What reaches the window: the four menu actions (with the dialog's result, "" when
      cancelled) and an edit of the text, which delivers `textChanged`. */
  datatype Event =
    | NewFile(path: string)
    | Open(path: string)
    | Edit(newText: string)
    | Save
    | SaveAs(path: string)

  /** The window after one event. A cancelled dialog leaves the whole window unchanged,
      an edit never touches the buffer, the path, the label or the disk, no event
      deletes a file, and no event unbinds a bound file. */
  function Step(w: Window, e: Event): (r: Window)
    ensures (e.NewFile? || e.Open? || e.SaveAs?) && e.path == "" ==> r == w
    ensures e.Edit? ==>
      && r.buffer == w.buffer && r.curFile == w.curFile
      && r.display == w.display && r.disk == w.disk
    ensures w.disk.Keys <= r.disk.Keys
    ensures w.buffer.hasFile ==> r.buffer.hasFile
  {
    match e
    case NewFile(f) => CreateFile(w, f)
    case Open(f) => OpenFile(w, f)
    case Edit(t) => CheckSaveBuffer(SetText(w, t))
    case Save => SaveFile(w)
    case SaveAs(f) => SaveFileAs(w, f)
  }

  /** The window after the events `es`, one after the other. No sequence of events
      deletes a file or unbinds a bound file. */
  function Run(w: Window, es: seq<Event>): (r: Window)
    ensures w.disk.Keys <= r.disk.Keys
    ensures w.buffer.hasFile ==> r.buffer.hasFile
    decreases |es|
  {
    if es == [] then w else Run(Step(w, es[0]), es[1..])
  }

  predicate AllEdits(es: seq<Event>)
  {
    forall i :: 0 <= i < |es| ==> es[i].Edit?
  }

  // ---------------------------------------------------------------------------
  // Invariants kept by every handler

  /** Every handler keeps `Inv` and never unbinds a bound file. */
  lemma StepPreservesInv(w: Window, e: Event)
    requires Inv(w)
    ensures Inv(Step(w, e))
    ensures w.buffer.hasFile ==> Step(w, e).buffer.hasFile
  {
  }

  /** `Inv` holds after any sequence of events. */
  lemma {:induction false} RunPreservesInv(w: Window, es: seq<Event>)
    requires Inv(w)
    ensures Inv(Run(w, es))
    decreases |es|
  {
    if es != [] {
      StepPreservesInv(w, es[0]);
      RunPreservesInv(Step(w, es[0]), es[1..]);
    }
  }

  /** Every window the program can reach from its start satisfies `Inv`. */
  lemma ReachableInv(disk: map<string, string>, es: seq<Event>)
    ensures Inv(Run(Init(disk), es))
  {
    RunPreservesInv(Init(disk), es);
  }

  /** Once a file is bound, no sequence of events unbinds it, and a path stays bound. */
  lemma {:induction false} RunKeepsFileBound(w: Window, es: seq<Event>)
    requires Inv(w) && w.buffer.hasFile
    ensures Run(w, es).buffer.hasFile && Run(w, es).curFile != ""
    decreases |es|
  {
    if es != [] {
      StepPreservesInv(w, es[0]);
      RunKeepsFileBound(Step(w, es[0]), es[1..]);
    }
  }

  // ---------------------------------------------------------------------------
  // Edits

  /** While no file is bound, edits change only the editor text: the buffer, the path,
      the display and the Save flag stay as they were, so edits never enable Save. */
  lemma {:induction false} EditsWithoutFileChangeOnlyText(w: Window, es: seq<Event>)
    requires !w.buffer.hasFile && AllEdits(es)
    ensures Run(w, es) == w.(text := Run(w, es).text)
    decreases |es|
  {
    if es != [] {
      assert es[0].Edit?;
      assert AllEdits(es[1..]) by {
        forall i | 0 <= i < |es[1..]| ensures es[1..][i].Edit? {
          assert es[1..][i] == es[i + 1];
        }
      }
      EditsWithoutFileChangeOnlyText(Step(w, es[0]), es[1..]);
    }
  }

  /** With a file bound, after at least one edit Save is enabled exactly when the editor
      text differs from the saved text, which edits never change: typing back the saved
      text disables Save again. */
  lemma {:induction false} EditsWithFileTrackDirty(w: Window, es: seq<Event>)
    requires w.buffer.hasFile && AllEdits(es) && es != []
    ensures var last := es[|es| - 1].newText;
      Run(w, es) == w.(text := last, saveEnabled := last != w.buffer.saved)
    ensures Run(w, es).saveEnabled <==> Run(w, es).text != w.buffer.saved
    decreases |es|
  {
    assert es[0].Edit?;
    var next := Step(w, es[0]);
    if |es| == 1 {
      assert Run(next, es[1..]) == next;
    } else {
      assert AllEdits(es[1..]) by {
        forall i | 0 <= i < |es[1..]| ensures es[1..][i].Edit? {
          assert es[1..][i] == es[i + 1];
        }
      }
      EditsWithFileTrackDirty(next, es[1..]);
    }
  }

  // ---------------------------------------------------------------------------
  // Saving and reopening

  /** While Save is enabled in a reachable window, the Save handler always writes: its
      guard against an unbound path never fires. */
  lemma EnabledSaveWrites(w: Window)
    requires Inv(w) && w.saveEnabled
    ensures SaveFile(w).disk == w.disk[w.curFile := w.text]
    ensures SaveFile(w).buffer.saved == w.text && !SaveFile(w).saveEnabled
  {
  }

  /** Reopening the file just saved leaves the whole window as the save left it. */
  lemma SaveThenReopenIsNoOp(w: Window)
    requires Inv(w) && w.buffer.hasFile
    ensures OpenFile(SaveFile(w), w.curFile) == SaveFile(w)
  {
  }

  /** Reopening the file just written by Save As restores the editor text and the saved
      text, and leaves Save disabled whatever it was before. */
  lemma SaveAsThenReopen(w: Window, f: string)
    requires f != ""
    ensures OpenFile(SaveFileAs(w, f), f) == SaveFileAs(w, f).(saveEnabled := false)
  {
  }

  // ---------------------------------------------------------------------------
  // What the Save flag does not track

  /** The Save flag is not "the text differs from the saved text": text typed before any
      file is bound, followed by New File, leaves a bound, modified document with Save
      disabled. */
  lemma CreateFileLeavesDirtyTextUnflagged()
    ensures var w := Run(Init(map[]), [Edit("a"), NewFile("f")]);
      && w.buffer.hasFile && w.text != w.buffer.saved && !w.saveEnabled
  {
  }

  /** Opening a second file whose contents differ from the first file's saved text
      leaves Save enabled on an unmodified document. */
  lemma ReopenEnablesSaveOnCleanText()
    ensures var w := Run(Init(map["a" := "x", "b" := "y"]), [Open("a"), Open("b")]);
      && w.buffer.hasFile && w.text == w.buffer.saved && w.saveEnabled
  {
  }
}
