/**
 * The page controller: which sample is selected, the baseline text recorded
 * for it and the editor's text, with the transitions `loadFile`,
 * `updatePreview`, `applyChanges` and `resetChanges`.  The network fetch is
 * an input (its outcome), the preview frame is the list of texts it was
 * given, and toasts are the list of messages shown.
 */
module Controller {
  import opened Wrappers
  import Sidebar

  datatype Language = Html | Css | JavaScript | Json

  predicate EndsWith(s: string, suffix: string) {
    |suffix| <= |s| && s[|s| - |suffix|..] == suffix
  }

  /** A name ends in at most one of `.css`, `.js` and `.json`: their last two characters differ. */
  lemma SuffixesExclude(s: string)
    ensures !(EndsWith(s, ".css") && EndsWith(s, ".js"))
    ensures !(EndsWith(s, ".css") && EndsWith(s, ".json"))
    ensures !(EndsWith(s, ".js") && EndsWith(s, ".json"))
  {
    if EndsWith(s, ".js") {
      assert s[|s| - 1] == 's' && s[|s| - 2] == 'j';
    }
    if EndsWith(s, ".json") {
      assert s[|s| - 1] == 'n';
    }
  }

  /**
   * The editor language for a file name.  The three suffixes exclude each
   * other, so the order in which they are tried does not matter.
   */
  function DetectLanguage(filename: string): (lang: Language)
    ensures lang == Css <==> EndsWith(filename, ".css")
    ensures lang == JavaScript <==> EndsWith(filename, ".js")
    ensures lang == Json <==> EndsWith(filename, ".json")
    ensures lang == Html <==> !EndsWith(filename, ".css") && !EndsWith(filename, ".js")
                              && !EndsWith(filename, ".json")
  {
    SuffixesExclude(filename);
    if EndsWith(filename, ".css") then Css
    else if EndsWith(filename, ".js") then JavaScript
    else if EndsWith(filename, ".json") then Json
    else Html
  }

  /** A name whose last character differs from the suffix's does not end in it. */
  lemma LastCharRulesOut(s: string, suffix: string)
    requires |suffix| > 0 && (|s| == 0 || s[|s| - 1] != suffix[|suffix| - 1])
    ensures !EndsWith(s, suffix)
  {
    if |suffix| <= |s| {
      assert s[|s| - |suffix|..][|suffix| - 1] == s[|s| - 1];
    }
  }

  /** Every sample in the catalogue is edited as HTML. */
  lemma CatalogIsHtml(filename: string)
    requires filename in Sidebar.HtmlFiles
    ensures DetectLanguage(filename) == Html
  {
    assert |filename| > 0 && filename[|filename| - 1] == 'l';
    LastCharRulesOut(filename, ".css");
    LastCharRulesOut(filename, ".js");
    LastCharRulesOut(filename, ".json");
  }

  datatype ToastKind = Success | Error | Info
  datatype Toast = Toast(kind: ToastKind, message: string)

  /** What `fetch` and `response.text()` deliver: the body, or a failure of either. */
  datatype FetchOutcome = Fetched(content: string) | FetchFailed

  /** `currentFile`, `originalContent`, and the editor's text and language. */
  datatype Session = Session(currentFile: Option<string>, original: string, text: string,
                             language: Language)

  datatype Page = Page(
    editorReady: bool,      // the editor widget exists
    session: Session,
    renders: seq<string>,   // texts the preview frame was pointed at, oldest first
    toasts: seq<Toast>)     // messages shown, oldest first

  const Placeholder: string :=
    "<!-- Select a file from the sidebar to start editing -->\n<!-- Your changes will be reflected in real-time -->"

  const InitialSession: Session := Session(None, "", "", Html)

  /** Before the editor widget has loaded. */
  const InitialPage: Page := Page(false, InitialSession, [], [])

  /** `!editor || !currentFile` is false: an editor exists and a non-empty name is selected. */
  predicate HasSelection(p: Page) {
    p.editorReady && p.session.currentFile.Some? && p.session.currentFile.value != ""
  }

  /** The editor widget is created holding the placeholder text, in HTML mode. */
  function EditorCreated(p: Page): (r: Page)
    ensures r.editorReady && r.session.text == Placeholder && r.session.language == Html
    ensures r.session.currentFile == p.session.currentFile && r.session.original == p.session.original
    ensures r.renders == p.renders && r.toasts == p.toasts
  {
    p.(editorReady := true, session := p.session.(text := Placeholder, language := Html))
  }

  /** The user changes the editor text (the debounced re-render it schedules is not modelled). */
  function UserEdit(p: Page, text: string): (r: Page)
    ensures p.editorReady ==> r.session == p.session.(text := text)
    ensures !p.editorReady ==> r == p
    ensures r.editorReady == p.editorReady && r.renders == p.renders && r.toasts == p.toasts
  {
    if p.editorReady then p.(session := p.session.(text := text)) else p
  }

  /** `updatePreview`: show the current text, unless nothing is selected. */
  function Preview(p: Page): (r: Page)
    ensures HasSelection(p) ==> r.renders == p.renders + [p.session.text]
    ensures !HasSelection(p) ==> r == p
    ensures r.editorReady == p.editorReady && r.session == p.session && r.toasts == p.toasts
  {
    if HasSelection(p) then p.(renders := p.renders + [p.session.text]) else p
  }

  const AppliedMessage: string :=
    "Changes applied! (Note: This is a demo - changes are not saved permanently)"
  const ResetMessage: string := "Code reset to original version"

  /** `applyChanges`: the current text becomes the baseline; nothing is persisted. */
  function Apply(p: Page): (r: Page)
    ensures HasSelection(p) ==> r.session == p.session.(original := p.session.text)
    ensures HasSelection(p) ==> r.toasts == p.toasts + [Toast(Success, AppliedMessage)]
    ensures !HasSelection(p) ==> r == p
    ensures r.editorReady == p.editorReady && r.renders == p.renders
  {
    if !HasSelection(p) then p
    else p.(session := p.session.(original := p.session.text),
            toasts := p.toasts + [Toast(Success, AppliedMessage)])
  }

  /** `resetChanges`: the editor text goes back to the baseline, which is then shown. */
  function Reset(p: Page): (r: Page)
    ensures HasSelection(p) ==> r.session == p.session.(text := p.session.original)
    ensures HasSelection(p) ==> r.renders == p.renders + [p.session.original]
    ensures HasSelection(p) ==> r.toasts == p.toasts + [Toast(Info, ResetMessage)]
    ensures !HasSelection(p) ==> r == p
    ensures r.editorReady == p.editorReady
  {
    if !HasSelection(p) then p
    else
      var restored := p.(session := p.session.(text := p.session.original));
      Preview(restored).(toasts := p.toasts + [Toast(Info, ResetMessage)])
  }

  /**
   * `loadFile` once the fetch has settled.  A failed fetch only shows an error;
   * a successful one, with the editor present, sets the text, language,
   * baseline and selection from the response and shows the text.
   */
  function Load(p: Page, filename: string, outcome: FetchOutcome): (r: Page)
    ensures outcome.FetchFailed? ==>
              r.session == p.session && r.renders == p.renders && r.editorReady == p.editorReady
              && r.toasts == p.toasts + [Toast(Error, "Failed to load " + filename)]
    ensures outcome.Fetched? && p.editorReady ==>
              r.session == Session(Some(filename), outcome.content, outcome.content,
                                   DetectLanguage(filename))
              && r.renders == p.renders + (if filename != "" then [outcome.content] else [])
              && r.toasts == p.toasts && r.editorReady
    ensures outcome.Fetched? && !p.editorReady ==> r == p
  {
    match outcome
    case FetchFailed =>
      p.(toasts := p.toasts + [Toast(Error, "Failed to load " + filename)])
    case Fetched(content) =>
      var loaded :=
        if p.editorReady then
          p.(session := Session(Some(filename), content, content, DetectLanguage(filename)))
        else p;
      Preview(loaded)
  }

  /** With nothing selected, apply, reset and the preview leave the page as it is. */
  lemma NoSelectionNoOps(p: Page)
    requires !HasSelection(p)
    ensures Apply(p) == p && Reset(p) == p && Preview(p) == p
  {
  }

  /** Reset right after apply changes nothing more in the session: the text stays. */
  lemma ApplyThenResetKeepsText(p: Page)
    ensures Reset(Apply(p)).session == Apply(p).session
    ensures Reset(Apply(p)).session.text == p.session.text
  {
  }

  /** Apply sets the baseline to the text of the moment and to nothing else. */
  lemma ApplyBaselineIsCurrentText(p: Page)
    requires HasSelection(p)
    ensures Apply(p).session.original == p.session.text
    ensures Apply(p).session.text == p.session.text
  {
  }

  /** A second reset finds the text already at the baseline. */
  lemma ResetIdempotent(p: Page)
    ensures Reset(Reset(p)).session == Reset(p).session
  {
  }

  /** Whatever was typed since, reset brings back the baseline recorded at load or apply. */
  lemma EditThenResetRestoresBaseline(p: Page, text: string)
    requires HasSelection(p)
    ensures Reset(UserEdit(p, text)).session.text == p.session.original
  {
  }

  /** A failed fetch leaves the selection, baseline and text untouched and renders nothing. */
  lemma FailedLoadKeepsSession(p: Page, filename: string)
    ensures Load(p, filename, FetchFailed).session == p.session
    ensures Load(p, filename, FetchFailed).renders == p.renders
  {
  }

  /** Loading a catalogue sample makes it the selection and shows its text exactly once. */
  lemma LoadSelectsSample(p: Page, filename: string, content: string)
    requires p.editorReady && filename in Sidebar.HtmlFiles
    ensures var r := Load(p, filename, Fetched(content));
            && HasSelection(r)
            && r.session == Session(Some(filename), content, content, Html)
            && r.renders == p.renders + [content]
  {
    CatalogIsHtml(filename);
  }

  /** Select `button.html` whose body is `<button>Click</button>`: the editor shows it, rendered once. */
  lemma ButtonScenario()
    ensures var r := Load(EditorCreated(InitialPage), "button.html", Fetched("<button>Click</button>"));
            && r.session.text == "<button>Click</button>"
            && r.session.original == "<button>Click</button>"
            && r.session.currentFile == Some("button.html")
            && r.renders == ["<button>Click</button>"]
  {
  }

  /** The page's mutable globals and the sidebar, as in the script. */
  class App {
    var editorReady: bool
    var currentFile: Option<string>
    var originalContent: string
    var text: string
    var language: Language
    var renders: seq<string>
    var toasts: seq<Toast>
    const fileList: Sidebar.FileList

    ghost function State(): Page
      reads this
    {
      Page(editorReady, Session(currentFile, originalContent, text, language), renders, toasts)
    }

    ghost predicate Valid()
      reads this
    {
      fileList.Valid() && fileList.labels == Sidebar.HtmlFiles
    }

    /** Page load: no editor yet, nothing selected, the catalogue listed with no item active. */
    constructor ()
      ensures Valid() && fresh(fileList.active)
      ensures State() == InitialPage
      ensures fileList.active[..] == seq(|Sidebar.HtmlFiles|, _ => false)
    {
      editorReady := false;
      currentFile := None;
      originalContent := "";
      text := "";
      language := Html;
      renders := [];
      toasts := [];
      fileList := new Sidebar.FileList(Sidebar.HtmlFiles);
    }

    method CreateEditor()
      requires Valid()
      modifies this
      ensures Valid()
      ensures State() == EditorCreated(old(State()))
    {
      editorReady := true;
      text := Placeholder;
      language := Html;
    }

    method EditText(newText: string)
      requires Valid()
      modifies this
      ensures Valid()
      ensures State() == UserEdit(old(State()), newText)
    {
      if editorReady {
        text := newText;
      }
    }

    method UpdatePreview()
      requires Valid()
      modifies this
      ensures Valid()
      ensures State() == Preview(old(State()))
    {
      if !editorReady || currentFile.None? || currentFile.value == "" {
        return;
      }
      renders := renders + [text];
    }

    method ApplyChanges()
      requires Valid()
      modifies this
      ensures Valid()
      ensures State() == Apply(old(State()))
    {
      if !editorReady || currentFile.None? || currentFile.value == "" {
        return;
      }
      var content := text;
      toasts := toasts + [Toast(Success, AppliedMessage)];
      originalContent := content;
    }

    method ResetChanges()
      requires Valid()
      modifies this
      ensures Valid()
      ensures State() == Reset(old(State()))
    {
      if !editorReady || currentFile.None? || currentFile.value == "" {
        return;
      }
      text := originalContent;
      UpdatePreview();
      toasts := toasts + [Toast(Info, ResetMessage)];
    }

    /**
     * `loadFile(filename)`: the sidebar marking happens before the fetch, so
     * it takes place whatever the fetch's outcome.
     */
    method LoadFile(filename: string, outcome: FetchOutcome)
      requires Valid()
      modifies this, fileList.active
      ensures Valid()
      ensures fileList.active[..] == Sidebar.ActiveMarks(fileList.labels, filename)
      ensures State() == Load(old(State()), filename, outcome)
    {
      fileList.MarkActive(filename);
      match outcome {
        case FetchFailed =>
          toasts := toasts + [Toast(Error, "Failed to load " + filename)];
          return;
        case Fetched(content) =>
          var lang := DetectLanguage(filename);
          if editorReady {
            text := content;
            language := lang;
            originalContent := content;
            currentFile := Some(filename);
          }
          UpdatePreview();
      }
    }
  }
}
