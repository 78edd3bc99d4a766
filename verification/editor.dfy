/**
 * The editor's state and what its handlers do to it: edits re-arm a
 * debounce timer, the timer's refresh re-renders the preview, recounts the
 * status line and re-highlights when the content changed, and new, open,
 * save, theme change and close act on the same state.
 *
 * The Markdown converter is a parameter; timers are ids handed out in
 * order, and a timer that was cancelled never fires.
 */
module Editor {

  import opened Wrappers
  import opened Text
  import opened Tags
  import opened Highlight
  import opened Palette
  import opened Status
  import opened Title
  import Format
  import Find

  /** What the preview shows for empty content. */
  const Placeholder: string := "<h1>Markdown 预览</h1><p>开始编辑以查看预览...</p>"

  /** The theme the style starts with. */
  const InitialTheme: string := "litera"

  /** The three answers of the "save changes?" box. */
  datatype Answer = Cancel | Yes | No

  datatype State = State(
    buffer: string,                  // the editor's text, without Tk's final newline
    afterId: Option<nat>,            // `after_id`: the timer the handler last armed
    timers: set<nat>,                // timers scheduled and neither fired nor cancelled
    nextTimer: nat,                  // the id the next `after` call returns
    lastContent: string,             // `last_content`
    isModified: bool,                // `is_modified`
    currentFile: Option<string>,     // `current_file`
    theme: string,                   // the style's theme name
    preview: string,                 // the HTML the preview shows
    renders: nat,                    // how many times the content has been rendered
    status: StatusLine,              // the status label
    title: string,                   // the window title
    marks: set<Mark>,                // the tags on the editor's characters
    tagStyles: map<Tag, TagStyle>,   // the tag colours configured so far
    editorColors: Option<EditorColors> // the editor colours a theme change set, if any
  )

  /** `render_markdown`: the placeholder for empty content, the converter's HTML otherwise. */
  function Render(convert: string -> string, content: string): (r: string)
    ensures content == [] ==> r == Placeholder
    ensures content != [] ==> r == convert(content)
  {
    if content == [] then Placeholder else convert(content)
  }

  /** The syntax marks the highlighter gives a buffer (it reads the widget text). */
  function HighlightOf(buffer: string): set<Mark> {
    MarksOf(Highlight.Highlight(WidgetText(buffer)))
  }

  /** The preview and the syntax tags show `last_content`. */
  predicate Shown(e: State, convert: string -> string) {
    e.preview == Render(convert, e.lastContent) && WithoutTag(e.marks, Search) == HighlightOf(e.lastContent)
  }

  /**
   * The invariant of the handlers: only the timer in `after_id` can still
   * fire, ids of live timers are below the next id, the title matches the
   * file and the modified flag, and a current file has a non-empty path.
   */
  predicate Inv(e: State) {
    && (forall t :: t in e.timers ==> e.afterId == Some(t))
    && (e.afterId.Some? ==> e.afterId.value < e.nextTimer)
    && e.title == Title.Title(e.currentFile, e.isModified)
    && (e.currentFile.Some? ==> e.currentFile.value != [])
  }

  /** The content a refresh reads: the widget text with Tk's final newline stripped. */
  function Content(e: State): (c: string)
    ensures c == e.buffer
  {
    StripUndoesWidgetNewline(e.buffer);
    StripTrailingNewline(WidgetText(e.buffer))
  }

  /**
   * The body of a refresh that found new content: render the preview, count
   * characters and words, re-highlight, apply the theme's tag colours, and
   * remember the content.
   */
  function Display(e: State, convert: string -> string): (r: State)
    ensures Shown(r, convert) && r.lastContent == e.buffer
    ensures r.status == StatusOf(e.buffer) && r.renders == e.renders + 1
    ensures WithTag(r.marks, Search) == WithTag(e.marks, Search)
    ensures forall t :: IsSyntax(t) ==> t in r.tagStyles && r.tagStyles[t] == Style(IsDark(e.theme), t)
    ensures r.buffer == e.buffer && r.afterId == e.afterId && r.timers == e.timers && r.nextTimer == e.nextTimer
    ensures r.isModified == e.isModified && r.currentFile == e.currentFile && r.title == e.title && r.theme == e.theme
  {
    var content := Content(e);
    var marks := HighlightPass(e.marks, WidgetText(e.buffer));
    PassSyntaxMarks(e.marks, WidgetText(e.buffer));
    e.(preview := Render(convert, content), renders := e.renders + 1, status := StatusOf(content),
       marks := marks, tagStyles := e.tagStyles + TagStyles(e.theme), lastContent := content)
  }

  /** `update_preview_and_status`: display and mark modified only when the content changed; clear `after_id`. */
  function Refresh(e: State, convert: string -> string): (r: State)
    ensures r.afterId.None? && r.nextTimer == e.nextTimer && r.buffer == e.buffer
    ensures e.buffer == e.lastContent <==> r == e.(afterId := None)
    ensures e.buffer != e.lastContent ==> r == Display(e, convert).(isModified := true, title := Title.Title(e.currentFile, true), afterId := None)
  {
    var content := Content(e);
    var e1 := if content != e.lastContent
      then Display(e, convert).(isModified := true, title := Title.Title(e.currentFile, true))
      else e;
    e1.(afterId := None)
  }

  /** Cancel the pending timer, if any, and forget its id. */
  function CancelPending(e: State): (r: State)
    ensures r.afterId.None? && (forall t :: t in r.timers <==> t in e.timers && Some(t) != e.afterId)
    ensures r == e.(afterId := None, timers := r.timers)
  {
    match e.afterId
    case None => e
    case Some(id) => e.(afterId := None, timers := e.timers - {id})
  }

  /** `__init__`: the empty document under the initial theme, one refresh, one highlight pass, the title. */
  function Init(convert: string -> string): (e: State)
    ensures Inv(e) && Shown(e, convert)
    ensures e.buffer == [] && e.afterId.None? && e.timers == {} && !e.isModified && e.title == AppName
  {
    var e0 := State([], None, {}, 0, [], false, None, InitialTheme, Placeholder, 0, Ready(0, 0), "", {}, map[], None);
    var e1 := Refresh(e0, convert);
    PassSyntaxMarks(e1.marks, WidgetText(e1.buffer));
    e1.(marks := HighlightPass(e1.marks, WidgetText(e1.buffer)), title := Title.Title(None, false))
  }

  /**
   * A key or button release in the editor after the text became `text`:
   * cancel the pending timer and arm a new one.
   */
  function Edit(e: State, text: string): (r: State)
    ensures r.buffer == text && r.afterId == Some(e.nextTimer) && r.nextTimer == e.nextTimer + 1
    ensures forall t :: t in r.timers <==> t == e.nextTimer || (t in e.timers && Some(t) != e.afterId)
    ensures r.lastContent == e.lastContent && r.preview == e.preview && r.marks == e.marks
    ensures r.isModified == e.isModified && r.title == e.title && r.status == e.status
  {
    var e1 := CancelPending(e.(buffer := text));
    e1.(afterId := Some(e.nextTimer), timers := e1.timers + {e.nextTimer}, nextTimer := e.nextTimer + 1)
  }

  /** Timer t reaches the event loop: a cancelled or already fired timer does nothing. */
  function Fire(e: State, t: nat, convert: string -> string): (r: State)
    ensures t !in e.timers ==> r == e
    ensures t in e.timers ==> t !in r.timers && r.afterId.None?
    ensures r.nextTimer == e.nextTimer
  {
    if t in e.timers then Refresh(e.(timers := e.timers - {t}), convert) else e
  }

  /** A write of the buffer to the current file: on success the document is saved; on failure nothing changes. */
  function Write(e: State, ok: bool): (r: State)
    requires e.currentFile.Some?
    ensures ok ==> !r.isModified && r.lastContent == e.buffer && r.status == Saved(Basename(e.currentFile.value))
    ensures !ok ==> r == e
    ensures r.preview == e.preview && r.marks == e.marks && r.afterId == e.afterId && r.timers == e.timers
    ensures r.buffer == e.buffer && r.nextTimer == e.nextTimer
  {
    if ok then
      var file := e.currentFile.value;
      e.(isModified := false, lastContent := Content(e), status := Saved(Basename(file)), title := Title.Title(e.currentFile, false))
    else e
  }

  /** `save_file_as`: an empty dialog path cancels; otherwise the path becomes the current file and is written. */
  function SaveAs(e: State, path: string, ok: bool): (r: State)
    ensures path == [] ==> r == e
    ensures path != [] ==> r.currentFile == Some(path) && (ok ==> !r.isModified && r.lastContent == e.buffer)
    ensures path != [] && !ok ==> r.isModified == e.isModified
    ensures r.afterId == e.afterId && r.timers == e.timers && r.preview == e.preview && r.marks == e.marks
    ensures r.buffer == e.buffer && r.nextTimer == e.nextTimer
  {
    if path == [] then e
    else
      var e1 := Write(e.(currentFile := Some(path)), ok);
      e1.(title := Title.Title(e1.currentFile, e1.isModified))
  }

  /**
   * `save_file`: without a current file it goes through `save_file_as` and
   * returns None; with one it writes and returns "break" whether or not the
   * write succeeded.
   */
  function SaveFile(e: State, path: string, ok: bool): (r: (State, bool))
    ensures r.1 <==> e.currentFile.Some?
    ensures e.currentFile.None? ==> r.0 == SaveAs(e, path, ok)
    ensures e.currentFile.Some? ==> r.0 == Write(e, ok)
    ensures r.0.afterId == e.afterId && r.0.timers == e.timers && r.0.nextTimer == e.nextTimer && r.0.buffer == e.buffer
  {
    if e.currentFile.None? then (SaveAs(e, path, ok), false) else (Write(e, ok), true)
  }

  /**
   * `ask_save_changes` as written: with unsaved changes, Cancel refuses,
   * No proceeds, and Yes proceeds exactly when `save_file` returned a value.
   */
  function AskSaveChanges(e: State, answer: Answer, path: string, ok: bool): (r: (bool, State))
    ensures !e.isModified ==> r == (true, e)
    ensures e.isModified && answer == Cancel ==> r == (false, e)
    ensures e.isModified && answer == No ==> r == (true, e)
    ensures e.isModified && answer == Yes ==> r.0 == e.currentFile.Some? && r.1 == SaveFile(e, path, ok).0
    ensures r.1.afterId == e.afterId && r.1.timers == e.timers && r.1.nextTimer == e.nextTimer && r.1.buffer == e.buffer
  {
    if !e.isModified then (true, e)
    else match answer
      case Cancel => (false, e)
      case No => (true, e)
      case Yes =>
        var (e1, returned) := SaveFile(e, path, ok);
        (returned, e1)
  }

  /**
   * `ask_save_changes` as evidently intended: Yes proceeds exactly when the
   * save left nothing unsaved.
   */
  function AskSaveIntended(e: State, answer: Answer, path: string, ok: bool): (r: (bool, State))
    ensures r.0 ==> answer == No || !r.1.isModified
    ensures e.isModified && answer == Yes ==> (r.0 <==> !r.1.isModified)
    ensures !e.isModified ==> r == (true, e)
    ensures e.isModified && answer == Cancel ==> !r.0
    ensures r.1.afterId == e.afterId && r.1.timers == e.timers && r.1.nextTimer == e.nextTimer && r.1.buffer == e.buffer
  {
    if !e.isModified then (true, e)
    else match answer
      case Cancel => (false, e)
      case No => (true, e)
      case Yes =>
        var (e1, _) := SaveFile(e, path, ok);
        (!e1.isModified, e1)
  }

  /** `new_file` once the user agreed to go on: an empty, unmodified, untitled document. */
  function New(e: State): (r: State)
    ensures r.buffer == [] && r.lastContent == [] && !r.isModified && r.currentFile.None?
    ensures r.afterId.None? && (forall t :: t in r.timers <==> t in e.timers && Some(t) != e.afterId)
    ensures r.preview == Placeholder && r.marks == {} && r.status == StatusOf([]) && r.nextTimer == e.nextTimer
  {
    StatusOfEmpty();
    CancelPending(e).(buffer := [], preview := Placeholder, currentFile := None, isModified := false,
                      lastContent := [], title := Title.Title(None, false), status := Ready(0, 0), marks := {})
  }

  /**
   * `open_file` as written, once the user agreed to go on and the file was
   * read: the text replaces the buffer (and its tags), `last_content` is set
   * to it, and only then the refresh runs.
   */
  function OpenLoaded(e: State, path: string, content: string, convert: string -> string): (r: State)
    requires path != []
    ensures r.buffer == content && r.lastContent == content && !r.isModified && r.currentFile == Some(path)
    ensures r.afterId.None? && (forall t :: t in r.timers <==> t in e.timers && Some(t) != e.afterId)
    ensures r.status == Opened(Basename(path)) && r.nextTimer == e.nextTimer
  {
    var e1 := CancelPending(e).(buffer := content, marks := {}, currentFile := Some(path), isModified := false, lastContent := content);
    var e2 := Refresh(e1, convert);
    e2.(title := Title.Title(e2.currentFile, e2.isModified), status := Opened(Basename(path)))
  }

  /** `open_file` as evidently intended: the opened text is displayed at once and the document is unmodified. */
  function OpenLoadedIntended(e: State, path: string, content: string, convert: string -> string): (r: State)
    requires path != []
    ensures Shown(r, convert)
    ensures r.buffer == content && r.lastContent == content && !r.isModified && r.currentFile == Some(path)
    ensures r.afterId.None? && (forall t :: t in r.timers <==> t in e.timers && Some(t) != e.afterId)
    ensures r.status == Opened(Basename(path)) && r.nextTimer == e.nextTimer
  {
    var e1 := CancelPending(e).(buffer := content, marks := {}, currentFile := Some(path));
    var e2 := Display(e1, convert);
    e2.(isModified := false, title := Title.Title(e2.currentFile, false), status := Opened(Basename(path)))
  }

  /**
   * `change_theme_directly`: render the current buffer, set the editor
   * colours and the tag colours of the theme, re-highlight.
   */
  function ChangeTheme(e: State, name: string, convert: string -> string): (r: State)
    ensures r.theme == name && r.editorColors == Some(EditorColorsFor(name))
    ensures r.preview == Render(convert, e.buffer) && WithoutTag(r.marks, Search) == HighlightOf(e.buffer)
    ensures forall t :: IsSyntax(t) ==> t in r.tagStyles && r.tagStyles[t] == TagStyles(name)[t]
    ensures (Search in r.tagStyles <==> Search in e.tagStyles) && (Search in e.tagStyles ==> r.tagStyles[Search] == e.tagStyles[Search])
    ensures r.lastContent == e.lastContent && r.isModified == e.isModified && r.afterId == e.afterId && r.timers == e.timers
    ensures r.buffer == e.buffer && r.nextTimer == e.nextTimer
  {
    PassSyntaxMarks(e.marks, WidgetText(e.buffer));
    e.(theme := name, preview := Render(convert, Content(e)), renders := e.renders + 1,
       editorColors := Some(EditorColorsFor(name)), tagStyles := e.tagStyles + TagStyles(name),
       marks := HighlightPass(e.marks, WidgetText(e.buffer)))
  }

  /**
   * Which form of the handlers a run uses: the code as written, or the
   * corrected `ask_save_changes` and `open_file` of the findings below.
   */
  datatype Handlers = AsWritten | Corrected

  /** `ask_save_changes` in the chosen form. */
  function AskSave(h: Handlers, e: State, answer: Answer, path: string, ok: bool): (r: (bool, State))
    ensures !e.isModified || answer == No ==> r == (true, e)
    ensures e.isModified && answer == Cancel ==> r == (false, e)
    ensures r.1.afterId == e.afterId && r.1.timers == e.timers && r.1.nextTimer == e.nextTimer && r.1.buffer == e.buffer
  {
    match h
    case AsWritten => AskSaveChanges(e, answer, path, ok)
    case Corrected => AskSaveIntended(e, answer, path, ok)
  }

  /** Loading an opened file in the chosen form. */
  function Load(h: Handlers, e: State, path: string, content: string, convert: string -> string): (r: State)
    requires path != []
    ensures r.buffer == content && r.lastContent == content && !r.isModified && r.currentFile == Some(path)
    ensures r.afterId.None? && (forall t :: t in r.timers <==> t in e.timers && Some(t) != e.afterId)
    ensures r.nextTimer == e.nextTimer
  {
    match h
    case AsWritten => OpenLoaded(e, path, content, convert)
    case Corrected => OpenLoadedIntended(e, path, content, convert)
  }

  /**
   * `on_closing`: cancel the pending timer (keeping its id), then close
   * unless there are unsaved changes the user does not let go. The result
   * says whether the window is destroyed.
   */
  function Close(h: Handlers, e: State, answer: Answer, path: string, ok: bool): (r: (bool, State))
    ensures r.1.afterId == e.afterId && r.1.nextTimer == e.nextTimer && r.1.buffer == e.buffer
    ensures forall t :: t in r.1.timers <==> t in e.timers && Some(t) != e.afterId
    ensures !e.isModified || answer == No ==> r.0
    ensures e.isModified && answer == Cancel ==> !r.0
    ensures h == Corrected && r.0 ==> answer == No || !r.1.isModified
    ensures h == AsWritten && e.isModified && answer == Yes && e.currentFile.Some? ==> r.0
  {
    var e1 := match e.afterId
      case None => e
      case Some(id) => e.(timers := e.timers - {id});
    if e1.isModified then AskSave(h, e1, answer, path, ok) else (true, e1)
  }

  /** The user's and the event loop's actions, with the dialogs' answers and the file system's results. */
  datatype Event =
    | KeyRelease(text: string)
    | TimerFired(id: nat)
    | NewPressed(answer: Answer, savePath: string, writeOk: bool)
    | OpenPressed(answer: Answer, savePath: string, writeOk: bool, path: string, read: Option<string>)
    | SavePressed(savePath: string, writeOk: bool)
    | SaveAsPressed(savePath: string, writeOk: bool)
    | ThemeChosen(name: string)
    | FormatChosen(prefix: string, suffix: string, sel: Option<Format.Selection>, cursor: nat)
    | FindPressed(query: string)
    | FindClosed
    | ClosePressed(answer: Answer, savePath: string, writeOk: bool)
    | MenuEdit(text: string)  // undo or redo from the Edit menu: the text the widget's undo stack gives

  /**
   * `new_file`: ask about unsaved changes, then start an empty document if
   * the answer lets it go on.
   */
  function OnNew(h: Handlers, e: State, answer: Answer, savePath: string, ok: bool): (r: State)
    ensures !e.isModified || answer == No ==> r == New(e)
    ensures e.isModified && answer == Cancel ==> r == e
    ensures h == AsWritten && e.isModified && answer == Yes && e.currentFile.Some? ==> r == New(Write(e, ok))
    ensures h == AsWritten && e.isModified && answer == Yes && e.currentFile.None? ==> r == SaveAs(e, savePath, ok)
    ensures h == Corrected && e.isModified && answer == Yes ==>
      (r.isModified && r.buffer == e.buffer) || r == New(SaveFile(e, savePath, ok).0)
    ensures r.nextTimer == e.nextTimer
  {
    var (go, e1) := AskSave(h, e, answer, savePath, ok);
    if go then New(e1) else e1
  }

  /**
   * `open_file`: ask about unsaved changes, then load the file the dialog
   * chose (an empty path is a cancelled dialog, a missing text a failed read).
   */
  function OnOpen(h: Handlers, e: State, answer: Answer, savePath: string, ok: bool, path: string, read: Option<string>,
                  convert: string -> string): (r: State)
    ensures (!e.isModified || answer == No) && path != [] && read.Some? ==> r == Load(h, e, path, read.value, convert)
    ensures (!e.isModified || answer == No) && (path == [] || read.None?) ==> r == e
    ensures e.isModified && answer == Cancel ==> r == e
    ensures r.buffer == e.buffer || (path != [] && read.Some? && r.buffer == read.value && r.currentFile == Some(path) && !r.isModified)
    ensures h == Corrected && e.isModified && answer == Yes && r.isModified ==> r.buffer == e.buffer
    ensures r.nextTimer == e.nextTimer
  {
    var (go, e1) := AskSave(h, e, answer, savePath, ok);
    if go && path != [] && read.Some? then Load(h, e1, path, read.value, convert) else e1
  }

  /**
   * A format chosen from the menu with the selection and cursor of that
   * moment. It changes the text only: no key or button is released in the
   * editor, so no refresh is armed. The corrected form holds the selection
   * back at "end-1c".
   */
  function OnFormat(h: Handlers, e: State, prefix: string, suffix: string, sel: Option<Format.Selection>, cursor: nat): (r: State)
    ensures r == e.(buffer := r.buffer)
    ensures var v := Format.View(e.buffer, sel, cursor);
      Format.Valid(v) && h == AsWritten ==> r.buffer == Format.InsertFormat(v, prefix, suffix).buffer
    ensures var v := Format.View(e.buffer, sel, cursor);
      Format.Valid(v) && h == Corrected ==> r.buffer == Format.InsertFormat(Format.ClampToBuffer(v), prefix, suffix).buffer
    ensures var v := Format.View(e.buffer, sel, cursor);
      Format.Valid(v) && sel.Some? && (if h == Corrected then sel.value.start < |e.buffer| else !Format.JoinsLine(v)) ==>
        sel.value.start <= |r.buffer| && r.buffer[..sel.value.start] == e.buffer[..sel.value.start]
  {
    var v := Format.View(e.buffer, sel, cursor);
    // The widget clamps indices, so an invalid view cannot arise; it changes nothing.
    if !Format.Valid(v) then e
    else if h == AsWritten then
      var r := e.(buffer := Format.InsertFormat(v, prefix, suffix).buffer);
      if sel.Some? then Format.OutsideUnchanged(v, prefix, suffix); r else r
    else
      Format.ClampedFormatIsExact(v, prefix, suffix);
      e.(buffer := Format.InsertFormat(Format.ClampToBuffer(v), prefix, suffix).buffer)
  }

  /**
   * `do_search` from the find dialog: only the search marks and the search
   * tag's colours change, and the colours are black on yellow whatever the
   * theme.
   */
  function OnFind(e: State, query: string): (r: State)
    ensures r == e.(marks := r.marks, tagStyles := r.tagStyles)
    ensures WithoutTag(r.marks, Search) == WithoutTag(e.marks, Search)
    ensures forall t :: t != Search ==>
      && (t in r.tagStyles <==> t in e.tagStyles)
      && (t in e.tagStyles ==> r.tagStyles[t] == e.tagStyles[t])
    ensures query == [] ==> r == e
    ensures query != [] ==> forall m: Mark :: m.tag == Search ==>
      (m in r.marks <==> exists rg :: rg in Find.Hits(e.buffer, query) && rg.start <= m.pos < rg.end)
    ensures query != [] ==> Search in r.tagStyles && r.tagStyles[Search] == TagStyle("black", Some("yellow"))
    ensures query != [] ==> r.tagStyles[Search] == Style(IsDark(e.theme), Search)
  {
    if query == [] then e
    else e.(marks := Find.SearchMarks(e.marks, Find.Hits(e.buffer, query)),
            tagStyles := e.tagStyles[Search := Style(IsDark(e.theme), Search)])
  }

  /** One event, with the handlers in the chosen form. */
  function Step(h: Handlers, e: State, ev: Event, convert: string -> string): (r: State)
    ensures r.nextTimer >= e.nextTimer
    ensures ev.KeyRelease? ==> r.buffer == ev.text && r.afterId == Some(e.nextTimer)
    ensures ev.TimerFired? && ev.id !in e.timers ==> r == e
    ensures ev.ThemeChosen? ==> r.theme == ev.name
    ensures ev.FindPressed? || ev.FindClosed? ==>
      r == e.(marks := r.marks, tagStyles := r.tagStyles) && WithoutTag(r.marks, Search) == WithoutTag(e.marks, Search)
    ensures ev.FindPressed? && ev.query != [] ==> Search in r.tagStyles && r.tagStyles[Search] == TagStyle("black", Some("yellow"))
    ensures ev.FindClosed? ==> r == e.(marks := r.marks)
    ensures ev.FormatChosen? || ev.MenuEdit? ==> r == e.(buffer := r.buffer)
    ensures ev.MenuEdit? ==> r.buffer == ev.text
  {
    match ev
    case KeyRelease(text) => Edit(e, text)
    case TimerFired(id) => Fire(e, id, convert)
    case NewPressed(answer, savePath, ok) => OnNew(h, e, answer, savePath, ok)
    case OpenPressed(answer, savePath, ok, path, read) => OnOpen(h, e, answer, savePath, ok, path, read, convert)
    case SavePressed(savePath, ok) => SaveFile(e, savePath, ok).0
    case SaveAsPressed(savePath, ok) => SaveAs(e, savePath, ok)
    case ThemeChosen(name) => ChangeTheme(e, name, convert)
    case FormatChosen(prefix, suffix, sel, cursor) => OnFormat(h, e, prefix, suffix, sel, cursor)
    case FindPressed(query) => OnFind(e, query)
    case FindClosed => e.(marks := Find.CloseSearch(e.marks))
    case ClosePressed(answer, savePath, ok) => Close(h, e, answer, savePath, ok).1
    case MenuEdit(text) => e.(buffer := text)
  }

  /** Whether the event closes the window: a close the user lets go on. */
  predicate Closes(h: Handlers, e: State, ev: Event) {
    ev.ClosePressed? && Close(h, e, ev.answer, ev.savePath, ev.writeOk).0
  }

  /**
   * A sequence of events from a state; once the window is destroyed no
   * further event arrives. Timer ids are never handed out twice.
   */
  function Run(h: Handlers, e: State, evs: seq<Event>, convert: string -> string): (r: State)
    ensures r.nextTimer >= e.nextTimer
    decreases |evs|
  {
    if evs == [] then e
    else
      var e1 := Step(h, e, evs[0], convert);
      if Closes(h, e, evs[0]) then e1 else Run(h, e1, evs[1..], convert)
  }

  /** The status line of empty content, the one `new_file` writes. */
  lemma StatusOfEmpty()
    ensures StatusOf([]) == Ready(0, 0)
  {
    WordsIffWordChar([]);
  }

  /** At most one refresh is ever pending, and it is the one `after_id` names. */
  lemma AtMostOnePending(e: State)
    requires Inv(e)
    ensures e.timers == {} || (e.afterId.Some? && e.timers == {e.afterId.value})
  {
    if e.timers != {} {
      var t :| t in e.timers;
      assert e.timers == {t};
    }
  }

  /** After an edit exactly one refresh is pending. */
  lemma EditArmsOne(e: State, text: string)
    requires Inv(e)
    ensures Inv(Edit(e, text)) && Edit(e, text).timers == {e.nextTimer}
  {
  }

  lemma WriteKeepsInv(e: State, ok: bool)
    requires Inv(e) && e.currentFile.Some?
    ensures Inv(Write(e, ok))
  {
  }

  lemma SaveKeepsInv(e: State, path: string, ok: bool)
    requires Inv(e)
    ensures Inv(SaveFile(e, path, ok).0) && Inv(SaveAs(e, path, ok))
  {
  }

  lemma AskKeepsInv(e: State, answer: Answer, path: string, ok: bool)
    requires Inv(e)
    ensures Inv(AskSaveChanges(e, answer, path, ok).1) && Inv(AskSaveIntended(e, answer, path, ok).1)
  {
    SaveKeepsInv(e, path, ok);
  }

  lemma OpenKeepsInv(e: State, path: string, content: string, convert: string -> string)
    requires Inv(e) && path != []
    ensures Inv(OpenLoaded(e, path, content, convert)) && OpenLoaded(e, path, content, convert).timers <= e.timers
    ensures Inv(OpenLoadedIntended(e, path, content, convert)) && OpenLoadedIntended(e, path, content, convert).timers <= e.timers
  {
  }

  /** Firing a timer keeps the invariant; firing the pending one leaves none. */
  lemma FireKeepsInv(e: State, t: nat, convert: string -> string)
    requires Inv(e)
    ensures Inv(Fire(e, t, convert))
    ensures t in e.timers ==> Fire(e, t, convert).timers == {}
  {
    if t in e.timers {
      AtMostOnePending(e);
      assert e.timers - {t} == {};
    }
  }

  lemma NewKeepsInv(e: State)
    requires Inv(e)
    ensures Inv(New(e))
  {
  }

  lemma ThemeKeepsInv(e: State, name: string, convert: string -> string)
    requires Inv(e)
    ensures Inv(ChangeTheme(e, name, convert))
  {
  }

  lemma AskSaveKeepsInv(h: Handlers, e: State, answer: Answer, path: string, ok: bool)
    requires Inv(e)
    ensures Inv(AskSave(h, e, answer, path, ok).1)
  {
    AskKeepsInv(e, answer, path, ok);
  }

  lemma NewEventKeepsInv(h: Handlers, e: State, answer: Answer, savePath: string, ok: bool)
    requires Inv(e)
    ensures Inv(OnNew(h, e, answer, savePath, ok))
  {
    AskSaveKeepsInv(h, e, answer, savePath, ok);
    var (go, e1) := AskSave(h, e, answer, savePath, ok);
    if go {
      NewKeepsInv(e1);
    }
  }

  lemma OpenEventKeepsInv(h: Handlers, e: State, answer: Answer, savePath: string, ok: bool, path: string,
                          read: Option<string>, convert: string -> string)
    requires Inv(e)
    ensures Inv(OnOpen(h, e, answer, savePath, ok, path, read, convert))
  {
    AskSaveKeepsInv(h, e, answer, savePath, ok);
    var (go, e1) := AskSave(h, e, answer, savePath, ok);
    if go && path != [] && read.Some? {
      OpenKeepsInv(e1, path, read.value, convert);
    }
  }

  /** Closing, or trying to, keeps the invariant; a close cancelled by the user leaves no timer that can fire. */
  lemma CloseKeepsInv(h: Handlers, e: State, answer: Answer, path: string, ok: bool)
    requires Inv(e)
    ensures Inv(Close(h, e, answer, path, ok).1) && Close(h, e, answer, path, ok).1.timers == {}
  {
    AtMostOnePending(e);
    var e1 := match e.afterId
      case None => e
      case Some(id) => e.(timers := e.timers - {id});
    assert e1.timers == {};
    if e1.isModified {
      AskSaveKeepsInv(h, e1, answer, path, ok);
    }
  }

  /**
   * Every event keeps the invariant, with the handlers as written and with
   * the corrected ones: edits, timers, new, open, save, save-as, theme
   * changes, formats, searches, closes and undo or redo from the menu.
   */
  lemma StepKeepsInv(h: Handlers, e: State, ev: Event, convert: string -> string)
    requires Inv(e)
    ensures Inv(Step(h, e, ev, convert))
  {
    match ev
    case KeyRelease(text) => EditArmsOne(e, text);
    case TimerFired(id) => FireKeepsInv(e, id, convert);
    case NewPressed(answer, savePath, ok) => NewEventKeepsInv(h, e, answer, savePath, ok);
    case OpenPressed(answer, savePath, ok, path, read) => OpenEventKeepsInv(h, e, answer, savePath, ok, path, read, convert);
    case SavePressed(savePath, ok) => SaveKeepsInv(e, savePath, ok);
    case SaveAsPressed(savePath, ok) => SaveKeepsInv(e, savePath, ok);
    case ThemeChosen(name) => ThemeKeepsInv(e, name, convert);
    case FormatChosen(prefix, suffix, sel, cursor) =>
    case FindPressed(query) =>
    case FindClosed =>
    case ClosePressed(answer, savePath, ok) => CloseKeepsInv(h, e, answer, savePath, ok);
    case MenuEdit(text) =>
  }

  /**
   * Every run keeps the invariant, with either form of the handlers, so at
   * most one refresh is ever pending.
   */
  lemma {:induction false} RunKeepsInv(h: Handlers, e: State, evs: seq<Event>, convert: string -> string)
    requires Inv(e)
    ensures Inv(Run(h, e, evs, convert))
    decreases |evs|
  {
    if evs != [] {
      StepKeepsInv(h, e, evs[0], convert);
      if !Closes(h, e, evs[0]) {
        RunKeepsInv(h, Step(h, e, evs[0], convert), evs[1..], convert);
      }
    }
  }

  /** Once a close goes through, the events after it have no effect: the window is gone. */
  lemma RunStopsAtClose(h: Handlers, e: State, ev: Event, rest: seq<Event>, convert: string -> string)
    requires Closes(h, e, ev)
    ensures Run(h, e, [ev] + rest, convert) == Close(h, e, ev.answer, ev.savePath, ev.writeOk).1
  {
    assert ([ev] + rest)[0] == ev;
  }

  /** A refresh that finds the content unchanged changes nothing but `after_id`. */
  lemma RefreshGuard(e: State, convert: string -> string)
    requires e.buffer == e.lastContent
    ensures Refresh(e, convert) == e.(afterId := None)
  {
  }

  /** A refresh over a displayed state displays the buffer and leaves the invariant. */
  lemma RefreshShowsBuffer(e: State, convert: string -> string)
    requires Inv(e) && Shown(e, convert) && e.timers == {}
    ensures var r := Refresh(e, convert);
      Inv(r) && Shown(r, convert) && r.lastContent == e.buffer
  {
  }

  /** Edits keep what is displayed; the buffer runs ahead of it. */
  lemma EditKeepsShown(e: State, text: string, convert: string -> string)
    requires Shown(e, convert)
    ensures Shown(Edit(e, text), convert)
  {
  }

  /** A sequence of edits. */
  function Edits(e: State, texts: seq<string>): State
    decreases |texts|
  {
    if texts == [] then e else Edits(Edit(e, texts[0]), texts[1..])
  }

  lemma {:induction false} EditsArmOne(e: State, texts: seq<string>, convert: string -> string)
    requires Inv(e) && Shown(e, convert) && texts != []
    ensures var r := Edits(e, texts);
      && Inv(r) && Shown(r, convert) && r.afterId.Some? && r.timers == {r.afterId.value}
      && r.buffer == texts[|texts| - 1] && r.lastContent == e.lastContent && r.renders == e.renders
    decreases |texts|
  {
    EditArmsOne(e, texts[0]);
    EditKeepsShown(e, texts[0], convert);
    if |texts| > 1 {
      EditsArmOne(Edit(e, texts[0]), texts[1..], convert);
    }
  }

  /**
   * Debouncing: after a burst of edits, firing the one pending timer renders
   * at most once and displays the last text.
   */
  lemma BurstThenFire(e: State, texts: seq<string>, convert: string -> string)
    requires Inv(e) && Shown(e, convert) && texts != []
    ensures var b := Edits(e, texts);
      b.afterId.Some? &&
      var r := Fire(b, b.afterId.value, convert);
      && Inv(r) && Shown(r, convert) && r.timers == {} && r.afterId.None?
      && r.lastContent == texts[|texts| - 1] && r.renders <= e.renders + 1
  {
    EditsArmOne(e, texts, convert);
    var b := Edits(e, texts);
    var id := b.afterId.value;
    FireKeepsInv(b, id, convert);
    FireKeepsShown(b, id, convert);
    var r := Fire(b, id, convert);
    assert r == Refresh(b.(timers := b.timers - {id}), convert);
    assert r.lastContent == b.buffer;
    assert r.renders <= b.renders + 1;
  }

  /** The initial document is displayed and has no syntax tags. */
  lemma InitHasNoTags(convert: string -> string)
    ensures WithoutTag(Init(convert).marks, Search) == {} && Init(convert).preview == Placeholder
  {
    EmptyHasNoTags();
  }

  /** The widget text of an empty buffer matches no rule. */
  lemma EmptyHasNoTags()
    ensures HighlightOf([]) == {}
  {
    var text := WidgetText([]);
    assert text == "\n";
    forall rule, q | rule in Rules && 0 <= q < |text|
      ensures Patterns.MatchAt(rule.pattern, text, q).None?
    {
      assert q == 0 && text[0] == '\n';
    }
    NoMatchNoSpans(text);
  }

  /** A new document is displayed: the placeholder, no syntax tags, zero counts. */
  lemma NewShown(e: State, convert: string -> string)
    requires Inv(e)
    ensures Inv(New(e)) && Shown(New(e), convert)
  {
    EmptyHasNoTags();
  }

  lemma FireKeepsShown(e: State, t: nat, convert: string -> string)
    requires Inv(e) && Shown(e, convert)
    ensures Shown(Fire(e, t, convert), convert)
  {
    if t in e.timers {
      FireKeepsInv(e, t, convert);
      RefreshShowsBuffer(e.(timers := e.timers - {t}), convert);
    }
  }

  lemma NewEventKeepsShown(e: State, answer: Answer, savePath: string, ok: bool, convert: string -> string)
    requires Inv(e) && Shown(e, convert) && answer != Yes
    ensures Shown(OnNew(Corrected, e, answer, savePath, ok), convert)
  {
    var (go, e1) := AskSave(Corrected, e, answer, savePath, ok);
    assert e1 == e;
    if go {
      NewShown(e1, convert);
    }
  }

  lemma OpenEventKeepsShown(e: State, answer: Answer, savePath: string, ok: bool, path: string, read: Option<string>,
                            convert: string -> string)
    requires Shown(e, convert) && answer != Yes
    ensures Shown(OnOpen(Corrected, e, answer, savePath, ok, path, read, convert), convert)
  {
    var (go, e1) := AskSave(Corrected, e, answer, savePath, ok);
    assert e1 == e;
  }

  /**
   * Edits, timers, formats, searches, menu undo and redo, and new and open with the corrected
   * handlers keep the display in step with `last_content` (a Yes to "save
   * changes?" runs a save, which is a finding of its own).
   */
  lemma StepKeepsShown(e: State, ev: Event, convert: string -> string)
    requires Inv(e) && Shown(e, convert)
    requires ev.KeyRelease? || ev.TimerFired? || ev.NewPressed? || ev.OpenPressed? || ev.FormatChosen? || ev.FindPressed? || ev.FindClosed? || ev.MenuEdit?
    requires ev.NewPressed? ==> ev.answer != Yes
    requires ev.OpenPressed? ==> ev.answer != Yes
    ensures Shown(Step(Corrected, e, ev, convert), convert)
  {
    match ev
    case KeyRelease(text) => EditKeepsShown(e, text, convert);
    case TimerFired(id) => FireKeepsShown(e, id, convert);
    case NewPressed(answer, savePath, ok) => NewEventKeepsShown(e, answer, savePath, ok, convert);
    case OpenPressed(answer, savePath, ok, path, read) => OpenEventKeepsShown(e, answer, savePath, ok, path, read, convert);
    case FormatChosen(prefix, suffix, sel, cursor) =>
    case FindPressed(query) =>
    case FindClosed =>
    case MenuEdit(text) =>
  }

  /** A theme change over a settled document keeps it displayed, in the new colours. */
  lemma ThemeKeepsShown(e: State, name: string, convert: string -> string)
    requires Shown(e, convert) && e.buffer == e.lastContent
    ensures Shown(ChangeTheme(e, name, convert), convert)
    ensures forall t :: IsSyntax(t) ==> ChangeTheme(e, name, convert).tagStyles[t] == Style(IsDark(name), t)
  {
  }

  /** The dark palette and the dark editor colours come together. */
  lemma ThemeColoursAgree(e: State, name: string, convert: string -> string)
    ensures var r := ChangeTheme(e, name, convert);
      r.tagStyles[Header] == Style(true, Header) <==> r.editorColors.value.background == "#2d2d2d"
  {
  }

  /**
   * `open_file` as written: `last_content` is the opened text before the
   * refresh runs, so the refresh changes nothing. The preview keeps showing
   * the previous document and the opened text has no syntax tags, and later
   * refreshes do not repair it until the text is edited.
   */
  lemma OpenLeavesPreviewStale(e: State, path: string, content: string, convert: string -> string)
    requires path != [] && e.preview != Render(convert, content)
    ensures var r := OpenLoaded(e, path, content, convert);
      && r.preview == e.preview && r.preview != Render(convert, r.buffer)
      && r.marks == {} && r.renders == e.renders
      && Refresh(r, convert) == r
  {
  }

  /** With a syntax element in the file, the opened document shows without its highlighting. */
  lemma OpenLosesHighlighting(e: State, path: string, content: string, convert: string -> string)
    requires path != [] && HighlightOf(content) != {}
    ensures !Shown(OpenLoaded(e, path, content, convert), convert)
    ensures Shown(OpenLoadedIntended(e, path, content, convert), convert)
  {
  }

  /**
   * `save_file` as written also sets `last_content` without rendering: a save
   * while a refresh is pending makes that refresh a no-op, so the edits before
   * the save never reach the preview.
   */
  lemma SaveDuringDebounceSkipsRefresh(e: State, text: string, convert: string -> string)
    requires Inv(e) && Shown(e, convert) && e.currentFile.Some?
    requires Render(convert, text) != e.preview
    ensures var b := Edit(e, text);
      var s := Write(b, true);
      var r := Fire(s, b.afterId.value, convert);
      && r.preview == e.preview && r.lastContent == text && r.buffer == text && r.afterId.None?
      && r.preview != Render(convert, r.buffer)
  {
  }

  /** The corrected save renders what it saves, so the display stays in step. */
  function WriteIntended(e: State, ok: bool, convert: string -> string): (r: State)
    requires e.currentFile.Some?
    ensures ok ==> Shown(r, convert) && !r.isModified && r.lastContent == e.buffer
    ensures !ok ==> r == e
  {
    if ok then Write(Display(e, convert), true) else e
  }

  /**
   * `ask_save_changes` as written, answer Yes with a current file: a failed
   * write still proceeds, and the caller then discards the unsaved changes.
   */
  lemma AskSaveFailedWriteProceeds(e: State, path: string)
    requires e.isModified && e.currentFile.Some?
    ensures AskSaveChanges(e, Yes, path, false) == (true, e)
  {
  }

  /**
   * `ask_save_changes` as written, answer Yes without a current file: even a
   * successful save-as refuses, so new, open and close do not go on.
   */
  lemma AskSaveUntitledRefuses(e: State, path: string)
    requires e.isModified && e.currentFile.None? && path != []
    ensures var (go, r) := AskSaveChanges(e, Yes, path, true);
      !go && !r.isModified && r.currentFile == Some(path)
  {
  }

  /** The corrected answer handling never drops unsaved changes and goes on after every successful save. */
  lemma AskSaveIntendedSafe(e: State, answer: Answer, path: string, ok: bool)
    requires e.isModified
    ensures var (go, r) := AskSaveIntended(e, answer, path, ok);
      && (go ==> answer == No || !r.isModified)
      && (answer == Yes && ok && (e.currentFile.Some? || path != []) ==> go)
  {
  }

  /**
   * `on_closing` cancels the pending refresh before asking; when the user
   * then cancels the close, `after_id` still names a timer that will never
   * fire, and the last edits wait for the next one.
   */
  lemma CancelledCloseDropsRefresh(h: Handlers, e: State, path: string, ok: bool)
    requires Inv(e) && e.isModified && e.afterId.Some?
    ensures var (closed, r) := Close(h, e, Cancel, path, ok);
      !closed && r.afterId == e.afterId && r.timers == {} && Inv(r)
  {
  }
}
