# Text editor window: document dirty-state tracker

This project models the document state of the editor's `MainWindow` (`function.py`). The
state has these parts:

- the text buffer: the last loaded or saved text, and whether a file is bound;
- the bound path `curFile`;
- whether the Save menu action is enabled;
- the status label's text;
- the text area's contents.

It also models the files on disk. Five event handlers change that state: New File,
Open File, the text-changed check, Save and Save As.

There are two modules:

- `Document` (`document.dfy`) describes the window as a value, `Document.Window`. Each
  handler is a function from the window before the event to the window after it. `Run`
  applies a sequence of events. The lemmas state what the handlers keep true and what
  the Save flag does and does not track.
- `Editor` (`main_window.dfy`) is the window as the program has it: the class
  `MainWindow`, whose fields the handlers update in place. Each method is proved to end
  in the state the matching `Document` function gives. Each one also keeps the class
  invariant `Valid()`, which is `Document.Inv`.

Modelling choices:

- A file dialog's result is a `string` parameter, and `""` means the dialog was
  cancelled.
- The disk is a `map<string, string>` from path to contents. New File truncates the
  chosen file to `""`. Save and Save As write the editor text. Open File reads the
  chosen file.
- A path that is not in the map makes Open File change nothing. This models `open`
  raising before any field is assigned.
- A user edit is `SetText` followed by the text-changed check (`Event.Edit`).
- Qt delivers `textChanged` at once from inside `setPlainText`. The model makes this
  assumption explicit. In Open File, the text-changed check therefore runs after the
  editor text is replaced but before the buffer is. The Save flag after opening a file
  is the one computed against the previous file's saved text.

The code does not maintain "Save is enabled exactly when a file is bound and the text
differs from the saved text". New File and Save As never touch the Save flag, and Open
File computes it against the old buffer. The model follows the code.
`CreateFileLeavesDirtyTextUnflagged` and `ReopenEnablesSaveOnCleanText` show two event
sequences from the initial window that break that property.

## Model

| member | source | states |
|---|---|---|
| `Document.Init` | function.py:18-19 | The window starts with the buffer `("", false)`, an empty `curFile`, an empty editor and Save disabled, and satisfies the invariant, so the label is the placeholder. |
| `Document.SetText` | function.py:82 | Setting the text area's contents (a user edit, or `setPlainText`) changes the editor text to the given string and nothing else. |
| `Document.Step` | function.py:26-53 | Each menu action and `textChanged` reaches its handler. A cancelled dialog leaves the whole window unchanged. An edit never touches the buffer, the path, the label or the disk. No event deletes a file or unbinds a bound file. |
| `Document.Run` | function.py:67-114 | After any sequence of events, every file that was on disk is still there, and a bound file is still bound. |
| `Document.CheckSaveBuffer` | function.py:88-92 | With no file bound nothing changes. With a file bound, Save ends enabled exactly when the editor text differs from the saved text. Nothing but the Save flag ever changes. |
| `Document.CreateFile` | function.py:67-74 | A cancelled dialog changes nothing. Otherwise the chosen file is truncated on disk and bound with saved text `""`. `curFile` and the label become the path. The editor text and the Save flag are left unchanged. |
| `Document.OpenFile` | function.py:77-85 | A cancelled dialog, or a path with no file, changes nothing. Otherwise the editor text and saved text become the file's contents, a file is bound, and `curFile` and the label become the path. The Save flag is the one the text-changed check computes against the previous buffer. |
| `Document.SaveFile` | function.py:95-102 | With an empty `curFile` nothing changes. Otherwise the editor text is written to `curFile` and becomes the saved text, and Save is disabled. `curFile`, `hasFile`, the label and the editor text are unchanged. |
| `Document.SaveFileAs` | function.py:105-114 | A cancelled dialog changes nothing. Otherwise the editor text is written to the chosen path and becomes the saved text, a file is bound, and `curFile` and the label become the path. The Save flag and the editor text are unchanged. |
| `Document.StepPreservesInv` | function.py:67-114 | Every handler keeps the invariant: `curFile != ""` iff a file is bound, the label shows "No File opened" until then and `curFile` after, and Save enabled implies a file is bound. A bound file stays bound. |
| `Document.RunPreservesInv` | function.py:67-114 | The invariant holds after any sequence of events from a window that satisfies it. |
| `Document.ReachableInv` | function.py:18-44 | Every window reachable from the initial one satisfies the invariant. |
| `Document.RunKeepsFileBound` | function.py:72-73 | Once `hasFile` is true, no sequence of events makes it false, and `curFile` stays non-empty. |
| `Document.EditsWithoutFileChangeOnlyText` | function.py:89 | While no file is bound, any sequence of edits changes only the editor text. The buffer, the path, the label and the Save flag stay as they were, so edits never enable Save. |
| `Document.EditsWithFileTrackDirty` | function.py:91-92 | With a file bound, one or more edits change only the editor text, which becomes the last edit's text, and the Save flag. Save is enabled exactly when that text differs from the saved text, so typing back the saved text disables Save. The buffer, path, label and disk are unchanged. |
| `Document.EnabledSaveWrites` | function.py:96-102 | In a window satisfying the invariant with Save enabled, Save always writes the editor text to `curFile`. The empty-path guard never fires there. |
| `Document.SaveThenReopenIsNoOp` | function.py:80-85 | With a file bound, saving and then reopening `curFile` leaves the whole window as the save left it. |
| `Document.SaveAsThenReopen` | function.py:109-114 | After Save As to a path, reopening that path gives the same window as the Save As, except that Save is disabled. |
| `Document.CreateFileLeavesDirtyTextUnflagged` | function.py:71-74 | Typing before any file is bound, then New File, leaves a bound document whose text differs from the saved text with Save disabled. |
| `Document.ReopenEnablesSaveOnCleanText` | function.py:82-83 | Opening a second file whose contents differ from the first file's leaves Save enabled although the editor text equals the saved text. |
| `Editor.MainWindow.constructor` | function.py:18-19 | The constructed window is the initial `Document.Init` window and satisfies the invariant. |
| `Editor.MainWindow.SetText` | function.py:53 | Only the text area's contents change, and the invariant is kept. |
| `Editor.MainWindow.CheckSaveBuffer` | function.py:88-92 | The fields, updated in place, end as `Document.CheckSaveBuffer` gives, and the invariant is kept. |
| `Editor.MainWindow.CreateFile` | function.py:67-74 | The fields end as `Document.CreateFile` gives, and the invariant is kept. |
| `Editor.MainWindow.OpenFile` | function.py:77-85 | Sets the text, runs the text-changed check, then replaces the buffer, path and label. The fields end as `Document.OpenFile` gives, and the invariant is kept. |
| `Editor.MainWindow.SaveFile` | function.py:95-102 | Updates the saved text in the buffer in place. The fields end as `Document.SaveFile` gives, and the invariant is kept. |
| `Editor.MainWindow.SaveFileAs` | function.py:105-114 | The fields end as `Document.SaveFileAs` gives, and the invariant is kept. |

## Left out

- Widget construction and layout in `__init__` and `resizeEvent` (function.py:12-16,
  22-24, 32, 41, 45-52, 57-62). This is presentation with no state the handlers read.
  The initial state set at function.py:18-19, 36 and 44 is `Document.Init`. The
  connection of the actions and of `textChanged` to their handlers (function.py:26-39,
  53) is `Document.Step`.
- The `QFileDialog` calls (function.py:68, 78, 106). They are replaced by the path
  parameter.
- Document.OpenFile, Document.Step, Document.CheckSaveBuffer, Document.SaveFile,
  Document.SaveFileAs: the editor text is taken to be exactly the string that was set.
  The source reads it back through Qt's `toPlainText` (function.py:91-92, 99, 110).
  That call turns U+00A0 into a space and turns U+2028, U+2029, U+FDD0 and U+FDD1 into
  a newline. A file holding such characters is therefore compared, and saved, in
  normalized form by the source, and can keep Save enabled after the text is typed
  back. The model does not capture this, because the normalization belongs to Qt,
  which is not part of this model.
- Real file I/O. The model does not cover UTF-8 encoding and decoding, Python's
  newline translation on reading and writing, or failures to create or write a file. A missing file on Open is the one read failure modelled.
- Qt signal delivery. `Event.Edit` stands for a user edit followed by `textChanged`.
  Open File assumes `setPlainText` delivers `textChanged` at once. The model does not
  include Qt refusing to trigger a disabled action: `Run` applies the Save handler
  whatever the flag is. Because of the empty-path guard, Save still changes nothing
  when no file is bound.
- The close prompt and the settings file of the later releases
  (`Releases/V1.X`, `Releases/V2.X`). They are not part of this window.
