/** The editor window as an object whose handlers update its fields in place. Each
    handler is proved to leave the window in the state the matching function of module
    Document computes, and to keep the window's invariant. */
module Editor {
  import Document

  class MainWindow {
    var textBuffer: Document.TextBuffer
    var curFile: string
    /** Whether the Save menu action is enabled (the source stores its negation). */
    var saveEnabled: bool
    /** The text of the status label `curFileDisplay`. */
    var display: string
    /** The contents of the text area. */
    var text: string
    /** The files on disk, by path. */
    var disk: map<string, string>

    /** The window's fields as one value. */
    function State(): Document.Window
      reads this
    {
      Document.Window(textBuffer, curFile, saveEnabled, display, text, disk)
    }

    ghost predicate Valid()
      reads this
    {
      Document.Inv(State())
    }

    constructor (files: map<string, string>)
      ensures Valid()
      ensures State() == Document.Init(files)
    {
      textBuffer := Document.TextBuffer("", false);
      curFile := "";
      saveEnabled := false;
      display := Document.NoFileLabel;
      text := "";
      disk := files;
    }

    /** The text area's contents become `t`. */
    method SetText(t: string)
      requires Valid()
      modifies this
      ensures Valid()
      ensures State() == Document.SetText(old(State()), t)
    {
      text := t;
    }

    method CheckSaveBuffer()
      requires Valid()
      modifies this
      ensures Valid()
      ensures State() == Document.CheckSaveBuffer(old(State()))
    {
      if !textBuffer.hasFile {
        return;
      }
      if text != textBuffer.saved {
        saveEnabled := true;
      } else if text == textBuffer.saved {
        saveEnabled := false;
      }
    }

    /** `f` is the path the dialog returned, "" when it was cancelled. */
    method CreateFile(f: string)
      requires Valid()
      modifies this
      ensures Valid()
      ensures State() == Document.CreateFile(old(State()), f)
    {
      if f == "" {
        return;
      }
      disk := disk[f := ""];
      textBuffer := Document.TextBuffer("", true);
      curFile := f;
      display := curFile;
    }

    /** `f` is the path the dialog returned, "" when it was cancelled. */
    method OpenFile(f: string)
      requires Valid()
      modifies this
      ensures Valid()
      ensures State() == Document.OpenFile(old(State()), f)
    {
      if f != "" && f in disk {
        var content := disk[f];
        // Setting the text delivers textChanged at once, while the old buffer is in place.
        SetText(content);
        CheckSaveBuffer();
        textBuffer := Document.TextBuffer(content, true);
        curFile := f;
        display := curFile;
      }
    }

    method SaveFile()
      requires Valid()
      modifies this
      ensures Valid()
      ensures State() == Document.SaveFile(old(State()))
    {
      if curFile == "" {
        return;
      }
      var content := text;
      disk := disk[curFile := content];
      textBuffer := textBuffer.(saved := content);
      saveEnabled := false;
    }

    /** `f` is the path the dialog returned, "" when it was cancelled. */
    method SaveFileAs(f: string)
      requires Valid()
      modifies this
      ensures Valid()
      ensures State() == Document.SaveFileAs(old(State()), f)
    {
      if f == "" {
        return;
      }
      var content := text;
      disk := disk[f := content];
      textBuffer := Document.TextBuffer(content, true);
      curFile := f;
      display := curFile;
    }
  }
}
