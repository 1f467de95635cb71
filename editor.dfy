/**
 * The editor pane (scrapnote/src/component/editor.rs): it loads the bound note
 * into the host text editor, and on Escape saves the editor's text and hands
 * focus back. The host editor's functions (`get_value`, `set_value`,
 * `set_editable`, `focus`) and the requests become effects.
 */
module Editor {

  import opened Wrappers
  import opened Common
  import Utf8
  import PercentEncoding

  /** `Msg`; `Nothing` is `Msg::None`. */
  datatype Msg = Save | Unfocus | ContentLoaded(content: string) | Nothing

  /** `Props`: the bound note, whether the pane has focus (`on_unfocus` is the EmitUnfocus effect). */
  datatype Props = Props(fileName: Option<string>, focus: bool)

  datatype Effect =
    | SetValue(value: string)          // set_value
    | SetEditable(editable: bool)      // set_editable
    | FocusEditor                      // focus
    | EmitUnfocus                      // props.on_unfocus.emit(())
    | SendMessage(msg: Msg)            // link.send_message: the message is processed later
    | FetchContents(fileName: string)  // GET /api/file/<name>
    | SaveContents(fileName: string, content: string)  // POST /api/file/<name>

  const FilePath: string := "/api/file/"

  /** The target of a load or save of a note (scheme, host and port left out): the name is not encoded. */
  function FileUrl(fileName: string): (url: string)
    ensures |url| == |FilePath| + |fileName|
    ensures url[..|FilePath|] == FilePath && url[|FilePath|..] == fileName
  {
    FilePath + fileName
  }

  /** The target as it evidently should be: the name percent-encoded as one path segment. */
  function EncodedFileUrl(fileName: string): (url: string)
    ensures |url| >= |FilePath| && url[..|FilePath|] == FilePath
    ensures forall i :: |FilePath| <= i < |url| ==> PercentEncoding.IsEncodedChar(url[i])
  {
    FilePath + PercentEncoding.Encode(Utf8.Encode(fileName))
  }

  /** The message `onkeypress` sends: Save for Escape, nothing otherwise. */
  function KeyPressMsg(key: string): (m: Msg)
    ensures m == Save <==> key == "Escape"
    ensures m == Save || m == Nothing
  {
    match key
    case "Escape" => Save
    case _ => Nothing
  }

  /** The message of a load response: the content when it parsed, else nothing. */
  function ContentResponseMsg(response: Option<GetFileContentResponse>): (m: Msg)
    ensures m.ContentLoaded? <==> response.Some?
    ensures m.ContentLoaded? ==> m.content == response.value.content
    ensures response.None? ==> m == Nothing
  {
    if response.Some? then ContentLoaded(response.value.content) else Nothing
  }

  /** The message of a save response, whatever it is (None: the request failed). */
  function SaveResponseMsg(response: Option<string>): (m: Msg)
    ensures m == Unfocus
  {
    Unfocus
  }

  function Count(effects: seq<Effect>, e: Effect): nat
  {
    if effects == [] then 0 else (if effects[0] == e then 1 else 0) + Count(effects[1..], e)
  }

  /** An effect that does not occur is counted zero times. */
  lemma {:induction false} CountAbsent(effects: seq<Effect>, e: Effect)
    requires e !in effects
    ensures Count(effects, e) == 0
  {
    if effects != [] {
      assert effects[0] != e;
      assert forall k :: 0 <= k < |effects[1..]| ==> effects[1..][k] == effects[k + 1];
      CountAbsent(effects[1..], e);
    }
  }

  /**
   * `Editor::update`, as effects. `editorValue` is what `get_value()` returns
   * at the moment the message is handled.
   */
  function UpdateEffects(props: Props, msg: Msg, editorValue: string): (effects: seq<Effect>)
    ensures forall e :: e in effects && e.SaveContents? ==>
      msg == Save && props.fileName == Some(e.fileName) && e.content == editorValue
    ensures (exists e :: e in effects && e.SaveContents?) <==> msg == Save && props.fileName.Some?
    ensures msg == Save ==> |effects| == 1
    ensures Count(effects, EmitUnfocus) == if msg == Unfocus then 1 else 0
    ensures SetEditable(true) in effects <==> msg.ContentLoaded?
    ensures FocusEditor in effects <==> msg.ContentLoaded? && props.focus
    ensures msg.ContentLoaded? ==> effects[0] == SetValue(msg.content)
    ensures forall e :: e in effects ==> !e.FetchContents?
    ensures msg == Nothing ==> effects == []
    ensures msg == Save && props.fileName.None? ==> effects == [SendMessage(Unfocus)]
    ensures msg == Unfocus ==> effects == [EmitUnfocus]
    ensures msg.ContentLoaded? ==> |effects| == (if props.focus then 3 else 2) && effects[1] == SetEditable(true)
  {
    match msg
    case Save =>
      (match props.fileName
       case Some(f) =>
         var save := SaveContents(f, editorValue);
         assert save in [save];
         [save]
       case None => [SendMessage(Unfocus)])
    case Unfocus => [EmitUnfocus]
    case ContentLoaded(c) =>
      var effects := [SetValue(c), SetEditable(true)] + (if props.focus then [FocusEditor] else []);
      CountAbsent(effects, EmitUnfocus);
      effects
    case Nothing => []
  }

  /**
   * Escape always ends in exactly one `on_unfocus`: with a bound note after
   * the save's response (success or failure), without one through the queued
   * Unfocus message.
   */
  lemma EscapeReleasesOnce(props: Props, editorValue: string, saveResponse: Option<string>)
    ensures var effects := UpdateEffects(props, KeyPressMsg("Escape"), editorValue);
      var next := if props.fileName.Some? then SaveResponseMsg(saveResponse) else effects[0].msg;
      (props.fileName.Some? ==> effects == [SaveContents(props.fileName.value, editorValue)]) &&
      (props.fileName.None? ==> effects == [SendMessage(Unfocus)]) &&
      Count(UpdateEffects(props, next, editorValue), EmitUnfocus) == 1
  {
  }

  /** An outstanding load of a note: a GET of the note's target. */
  class FetchTask {

    const fileName: string
    const url: string

    constructor (fileName: string)
      ensures this.fileName == fileName && url == FileUrl(fileName)
    {
      this.fileName := fileName;
      url := FileUrl(fileName);
    }
  }

  /** An outstanding save of a note: a POST of the content to the note's target. */
  class SaveTask {

    const fileName: string
    const url: string
    const content: string

    constructor (fileName: string, content: string)
      ensures this.fileName == fileName && url == FileUrl(fileName) && this.content == content
    {
      this.fileName, this.content := fileName, content;
      url := FileUrl(fileName);
    }
  }

  class Editor {

    var props: Props
    var fetchTask: FetchTask?
    var saveTask: SaveTask?

    /** `Editor::create` */
    constructor (props: Props)
      ensures this.props == props && fetchTask == null && saveTask == null
    {
      this.props := props;
      fetchTask, saveTask := null, null;
    }

    /** `get_contents`: a new load replaces (and so cancels) the outstanding one. */
    method GetContents(fileName: string)
      modifies this`fetchTask
      ensures fresh(fetchTask) && fetchTask.fileName == fileName && fetchTask.url == FileUrl(fileName)
    {
      fetchTask := new FetchTask(fileName);
    }

    /** `save_content`: a new save replaces (and so cancels) the outstanding one. */
    method SaveContent(fileName: string, content: string)
      modifies this`saveTask
      ensures fresh(saveTask) && saveTask.fileName == fileName && saveTask.url == FileUrl(fileName)
      ensures saveTask.content == content
    {
      saveTask := new SaveTask(fileName, content);
    }

    /** `Editor::update`: never asks for a re-render. */
    method Update(msg: Msg, editorValue: string) returns (shouldRender: bool, effects: seq<Effect>)
      modifies this`saveTask
      ensures !shouldRender
      ensures effects == UpdateEffects(props, msg, editorValue)
      ensures msg == Save && props.fileName.Some? ==>
        fresh(saveTask) && saveTask.fileName == props.fileName.value && saveTask.content == editorValue &&
        saveTask.url == FileUrl(props.fileName.value)
      ensures !(msg == Save && props.fileName.Some?) ==> saveTask == old(saveTask)
    {
      match msg {
        case Save =>
          if props.fileName.Some? {
            SaveContent(props.fileName.value, editorValue);
            effects := [SaveContents(props.fileName.value, editorValue)];
          } else {
            effects := [SendMessage(Unfocus)];
          }
        case Unfocus =>
          effects := [EmitUnfocus];
        case ContentLoaded(c) =>
          effects := [SetValue(c), SetEditable(true)];
          if props.focus {
            effects := effects + [FocusEditor];
          }
        case Nothing =>
          effects := [];
      }
      shouldRender := false;
    }

    /**
     * `change`: every new props value that binds a note loads it, even the
     * note already bound; the props are replaced afterwards.
     */
    method Change(props: Props) returns (shouldRender: bool, effects: seq<Effect>)
      modifies this`props, this`fetchTask
      ensures this.props == props && !shouldRender
      ensures props.fileName.Some? ==>
        fresh(fetchTask) && fetchTask.fileName == props.fileName.value && fetchTask.url == FileUrl(props.fileName.value) &&
        effects == [FetchContents(props.fileName.value)]
      ensures props.fileName.None? ==> fetchTask == old(fetchTask) && effects == []
    {
      effects := [];
      if props.fileName.Some? {
        GetContents(props.fileName.value);
        effects := [FetchContents(props.fileName.value)];
      }
      this.props := props;
      shouldRender := false;
    }

    /** The callback of a load: only the outstanding load's response gets through. */
    method DeliverContents(task: FetchTask, response: Option<GetFileContentResponse>) returns (effects: seq<Effect>)
      modifies this`saveTask
      ensures task == fetchTask ==> effects == UpdateEffects(props, ContentResponseMsg(response), "")
      ensures task != fetchTask ==> effects == []
      ensures saveTask == old(saveTask)
    {
      effects := [];
      if task == fetchTask {
        var _, e := Update(ContentResponseMsg(response), "");
        effects := e;
      }
    }

    /** The callback of a save: only the outstanding save's response gets through, and it releases focus. */
    method DeliverSaved(task: SaveTask, response: Option<string>) returns (effects: seq<Effect>)
      modifies this`saveTask
      ensures task == saveTask ==> effects == [EmitUnfocus]
      ensures task != saveTask ==> effects == []
      ensures saveTask == old(saveTask)
    {
      effects := [];
      if task == saveTask {
        var _, e := Update(SaveResponseMsg(response), "");
        effects := e;
      }
    }
  }
}
